/**
 * The NVRAM bank (devices/nvram_v1.c): its checksums, its printer and its parser, on values.
 * Adler-32 is that of section 8.2 of RFC 1950.
 */
module NvramImage {
  import opened Basics
  import opened LittleEndian

  const BANK_MAX := 0x2000
  const COMMON_LEN := 0x7f0
  const NAME_MAX := 64
  const VALUE_MAX := 256
  const MAX_ENV := 32
  const MAX_PARTS := 8
  const BANK_SIG: u8 := 0x5a
  const COMMON_SIG: u8 := 0x70
  const FREE_SIG: u8 := 0x7f
  const EQUALS: u8 := 61
  const ADLER_MOD := 65521

  /** One variable; parsed is the number its value starts with. */
  datatype Env = Env(name: seq<u8>, value: seq<u8>, flags: u32, parsed: u32)

  /** One partition: the twelve name bytes the format stores, and its data. */
  datatype Part = Part(sig: u8, name: seq<u8>, data: seq<u8>)

  datatype Nvram = Nvram(env: seq<Env>, parts: seq<Part>, bankLen: nat, generation: u32)

  // ---------- Names ----------

  /** "common", padded to twelve bytes. */
  const COMMON_NAME: seq<u8> := [99, 111, 109, 109, 111, 110, 0, 0, 0, 0, 0, 0]
  /** "nvram", padded. */
  const BANK_NAME: seq<u8> := [110, 118, 114, 97, 109, 0, 0, 0, 0, 0, 0, 0]
  /** "APL,OSXPani", with its terminator: the panic partition, which is skipped. */
  const PANIC_NAME: seq<u8> := [65, 80, 76, 44, 79, 83, 88, 80, 97, 110, 105, 0]

  /** String comparison with "common" reads up to the terminator. */
  predicate IsCommon(name: seq<u8>)
  {
    |name| >= 7 && name[..7] == COMMON_NAME[..7]
  }

  // ---------- Checksums ----------

  function Zeros(n: nat): (s: seq<u8>)
    ensures |s| == n
  {
    seq(n, i => 0)
  }

  /** The byte sum with end-around carry. */
  function CarryStep(sum: nat, b: u8): (v: u8)
    requires sum < 256
  {
    (sum + b + (sum + b) / 256) % 256
  }

  function ChecksumUpTo(h: seq<u8>, n: nat): (v: u8)
    requires |h| == 16 && n <= 14
    decreases n
  {
    if n == 0 then h[0] else CarryStep(ChecksumUpTo(h, n - 1), h[1 + n])
  }

  /** The checksum of a partition header; byte 1, where it is stored, is not read. */
  function Checksum(h: seq<u8>): (v: u8)
    requires |h| == 16
  {
    ChecksumUpTo(h, 14)
  }

  function AdlerStep(s: (nat, nat), b: u8): (r: (nat, nat))
  {
    var s1 := (s.0 + b) % ADLER_MOD;
    (s1, (s.1 + s1) % ADLER_MOD)
  }

  /** The two sums over some bytes. */
  function AdlerSums(s: (nat, nat), bytes: seq<u8>): (r: (nat, nat))
    decreases |bytes|
  {
    if bytes == [] then s else AdlerSums(AdlerStep(s, bytes[0]), bytes[1..])
  }

  function Adler(bytes: seq<u8>): (n: nat)
  {
    var s := AdlerSums((1, 0), bytes);
    s.1 * 0x1_0000 + s.0
  }

  // ---------- Printing ----------

  /** A header with its checksum; the length is big-endian and keeps sixteen bits. */
  function Header(sig: u8, units: nat, name: seq<u8>): (h: seq<u8>)
    requires |name| == 12
    ensures |h| == 16
  {
    var blank: seq<u8> := [sig, 0, units / 256 % 256, units % 256] + name;
    [sig, Checksum(blank), units / 256 % 256, units % 256] + name
  }

  /** A partition's length in sixteen-byte units, its header included. */
  function Units(len: nat): (n: nat)
  {
    (len + 0x10 + 0xf) / 0x10
  }

  predicate Storable(p: Part)
  {
    |p.name| == 12 && |p.data| <= COMMON_LEN
  }

  predicate AllStorable(parts: seq<Part>)
  {
    forall i :: 0 <= i < |parts| ==> Storable(parts[i])
  }

  function PartBytes(p: Part): (b: seq<u8>)
    requires Storable(p)
    ensures |b| == 0x10 * Units(|p.data|)
  {
    var units := Units(|p.data|);
    Header(p.sig, units, p.name) + p.data + Zeros(0x10 * units - 0x10 - |p.data|)
  }

  /** Partitions without data are not printed. */
  function PartsBytes(parts: seq<Part>): (s: seq<u8>)
    requires AllStorable(parts)
    decreases |parts|
  {
    if parts == [] then [] else
    (if parts[0].data == [] then [] else PartBytes(parts[0])) + PartsBytes(parts[1..])
  }

  /** The free partition that fills the bank. */
  function FreeBytes(room: nat): (b: seq<u8>)
    ensures |b| == room
  {
    if room < 0x10 then Zeros(room)
    else Header(FREE_SIG, room / 0x10, Zeros(12)) + Zeros(room - 0x10)
  }

  /** Everything after the two sums: generation, padding, partitions, free space. */
  function Tail(generation: u32, parts: seq<Part>, bankLen: nat): (s: seq<u8>)
    requires AllStorable(parts)
    requires 0x20 + |PartsBytes(parts)| <= bankLen
  {
    Encode(generation, 4) + Zeros(8) + PartsBytes(parts) + FreeBytes(bankLen - 0x20 - |PartsBytes(parts)|)
  }

  /** A bank, if the partitions fit. */
  function Bank(generation: u32, parts: seq<Part>, bankLen: nat): (b: Option<seq<u8>>)
    requires AllStorable(parts)
    ensures b.Some? ==> |b.value| == bankLen
  {
    if bankLen < 0x40 || 0x20 + |PartsBytes(parts)| > bankLen then None else
    var tail := Tail(generation, parts, bankLen);
    Some(Header(BANK_SIG, 2, BANK_NAME) + Encode(Adler(tail), 4) + tail)
  }

  function Entry(e: Env): (s: seq<u8>)
  {
    e.name + [EQUALS] + e.value + [0]
  }

  function EnvBytes(env: seq<Env>): (s: seq<u8>)
  {
    if env == [] then [] else Entry(env[0]) + EnvBytes(env[1..])
  }

  /** The variables over the old data: one terminator if there is room, then what was there. */
  function CommonData(data: seq<u8>, env: seq<Env>): (d: Option<seq<u8>>)
    ensures d.Some? ==> |d.value| == |data|
  {
    var bytes := EnvBytes(env);
    if |bytes| > |data| then None
    else if |bytes| == |data| then Some(bytes)
    else Some(bytes + [0] + data[|bytes| + 1..])
  }

  function FindCommon(parts: seq<Part>): (i: nat)
    ensures i <= |parts|
    ensures i < |parts| ==> IsCommon(parts[i].name)
    ensures forall j :: 0 <= j < i ==> !IsCommon(parts[j].name)
  {
    if parts == [] then 0
    else if IsCommon(parts[0].name) then 0
    else
      var i := FindCommon(parts[1..]);
      assert forall j :: 0 < j < i + 1 ==> parts[j] == parts[1..][j - 1];
      i + 1
  }

  /** The partitions with a common one, created when there is none and there is room. */
  function EnsureCommon(parts: seq<Part>): (r: Option<seq<Part>>)
  {
    if FindCommon(parts) < |parts| then Some(parts)
    else if |parts| >= MAX_PARTS then None
    else Some(parts + [Part(COMMON_SIG, COMMON_NAME, Zeros(COMMON_LEN))])
  }

  /** The partitions as they are printed: the variables written into the common one. */
  function Printed(s: Nvram): (p: Option<seq<Part>>)
    requires AllStorable(s.parts)
    ensures p.Some? ==> AllStorable(p.value)
  {
    var parts := EnsureCommon(s.parts);
    if parts.None? then None else
    var at := FindCommon(parts.value);
    if at >= |parts.value| then None else
    var data := CommonData(parts.value[at].data, s.env);
    if data.None? then None else Some(parts.value[at := parts.value[at].(data := data.value)])
  }

  function PrintedLen(s: Nvram, bufLen: nat): (n: nat)
  {
    if s.bankLen == 0 || s.bankLen > bufLen then bufLen else s.bankLen
  }

  /** The whole printer into a buffer of bufLen bytes. */
  function Serialize(s: Nvram, bufLen: nat): (r: Option<seq<u8>>)
    requires AllStorable(s.parts)
  {
    if bufLen == 0 then None else
    var parts := Printed(s);
    if parts.None? then None else Bank(s.generation, parts.value, PrintedLen(s, bufLen))
  }

  // ---------- Variables ----------

  function DigitValue(c: u8, base: nat): (r: Option<nat>)
  {
    if 48 <= c <= 57 then Some(c - 48)
    else if base == 16 && 97 <= c <= 102 then Some(c - 97 + 10)
    else if base == 16 && 65 <= c <= 70 then Some(c - 65 + 10)
    else None
  }

  /** The leading digits, modulo 2^32. */
  function Digits(s: seq<u8>, base: nat, acc: u32): (v: u32)
    decreases |s|
  {
    if s == [] || DigitValue(s[0], base).None? then acc
    else Digits(s[1..], base, (acc * base + DigitValue(s[0], base).value) % 0x1_0000_0000)
  }

  /** Decimal, or hexadecimal after 0x. */
  function ParseUint(value: seq<u8>): (v: u32)
  {
    if |value| >= 2 && value[0] == 48 && (value[1] == 120 || value[1] == 88) then Digits(value[2..], 16, 0)
    else Digits(value, 10, 0)
  }

  function FindEnv(env: seq<Env>, name: seq<u8>): (i: nat)
    ensures i <= |env|
    ensures i < |env| ==> env[i].name == name
    ensures forall j :: 0 <= j < i ==> env[j].name != name
  {
    if env == [] then 0
    else if env[0].name == name then 0
    else
      var i := FindEnv(env[1..], name);
      assert forall j :: 0 < j < i + 1 ==> env[j] == env[1..][j - 1];
      i + 1
  }

  function Unset(env: seq<Env>, name: seq<u8>): (s: seq<Env>)
  {
    var i := FindEnv(env, name);
    if i < |env| then env[..i] + env[i + 1..] else env
  }

  /** Setting a variable moves it to the end; None leaves the removal done but adds nothing. */
  function Set(env: seq<Env>, name: seq<u8>, value: seq<u8>, flags: u32): (r: Option<seq<Env>>)
  {
    if name == [] || |name| >= NAME_MAX || |value| >= VALUE_MAX then None
    else if |Unset(env, name)| >= MAX_ENV then None
    else Some(Unset(env, name) + [Env(name, value, flags, ParseUint(value))])
  }

  // ---------- Parsing ----------

  /** How far a string runs before one of two terminators, or the end. */
  function RunLength(s: seq<u8>, a: u8, b: u8): (n: nat)
    ensures n <= |s|
    ensures n < |s| ==> s[n] == a || s[n] == b
    ensures forall i :: 0 <= i < n ==> s[i] != a && s[i] != b
  {
    if s == [] || s[0] == a || s[0] == b then 0
    else
      var n := RunLength(s[1..], a, b);
      assert forall i :: 0 < i < n + 1 ==> s[i] == s[1..][i - 1];
      n + 1
  }

  /** The variables in the data from some point on, added to those already read. */
  function LoadEnv(data: seq<u8>, env: seq<Env>): (r: Option<seq<Env>>)
    decreases |data|
  {
    if data == [] || data[0] == 0 then Some(env) else
    var n := RunLength(data, 0, EQUALS);
    if n >= |data| || data[n] != EQUALS then None else
    var rest := data[n + 1..];
    var v := RunLength(rest, 0, 0);
    if v >= |rest| || n >= NAME_MAX || v >= VALUE_MAX then None else
    var after := Set(env, data[..n], rest[..v], 0);
    if after.None? then None else LoadEnv(rest[v + 1..], after.value)
  }

  /** What a partition header says: a bad one, the free partition, or a partition of some units. */
  datatype Seen = Bad | Free | Partition(units: nat)

  function Look(buf: seq<u8>, offset: nat): (seen: Seen)
    requires offset + 16 <= |buf|
    ensures seen.Partition? ==> 1 <= seen.units && seen.units * 0x10 + offset <= |buf|
  {
    var h := buf[offset..offset + 16];
    var units := (h[2] as int) * 256 + h[3];
    if h[1] != Checksum(h) then Bad
    else if h[0] == FREE_SIG then Free
    else if units < 1 || units * 0x10 + offset > |buf| then Bad
    else Partition(units)
  }

  /** The partition of some units at an offset. */
  function PartAt(buf: seq<u8>, offset: nat, units: nat): (part: Part)
    requires 1 <= units && units * 0x10 + offset <= |buf|
  {
    Part(buf[offset], buf[offset + 4..offset + 16], buf[offset + 0x10..offset + units * 0x10])
  }

  /** The partitions from an offset on, added to those already read; the panic partition is skipped. */
  function ParseParts(buf: seq<u8>, offset: nat, parts: seq<Part>): (r: Option<seq<Part>>)
    decreases |buf| - offset
  {
    if offset + 16 > |buf| then Some(parts) else
    var seen := Look(buf, offset);
    if seen.Bad? then None
    else if seen.Free? then Some(parts)
    else if |parts| >= MAX_PARTS then None
    else
      var part := PartAt(buf, offset, seen.units);
      if part.name == PANIC_NAME then ParseParts(buf, offset + seen.units * 0x10, parts)
      else if |part.data| > COMMON_LEN then None
      else ParseParts(buf, offset + seen.units * 0x10, parts + [part])
  }

  /** Refused before anything is touched, emptied because the contents are bad, or loaded. */
  datatype Parsed = Refused | Emptied | Loaded(state: Nvram)

  const FRESH := Nvram([], [Part(COMMON_SIG, COMMON_NAME, Zeros(COMMON_LEN))], BANK_MAX, 0)

  /** The two sums that guard a bank. */
  predicate Guarded(buf: seq<u8>)
  {
    && |buf| >= 0x20 && buf[1] == Checksum(buf[..16])
    && Adler(buf[0x14..]) == Assemble(buf[0x10..0x14])
  }

  function Parse(buf: seq<u8>): (parsed: Parsed)
  {
    if !Guarded(buf) then Refused else
    assert Assemble(buf[0x14..0x18]) < 0x1_0000_0000 by { FourBytes(buf[0x14..0x18]); }
    var generation: u32 := Assemble(buf[0x14..0x18]);
    var parts := ParseParts(buf, 0x20, []);
    if parts.None? then Emptied else
    var at := FindCommon(parts.value);
    if at >= |parts.value| then Loaded(FRESH) else
    var env := LoadEnv(parts.value[at].data, []);
    if env.None? then Emptied else Loaded(Nvram(env.value, parts.value, |buf|, generation))
  }

  lemma FourBytes(w: seq<u8>)
    requires |w| == 4
    ensures Assemble(w) < 0x1_0000_0000 && Encode(Assemble(w), 4) == w
  {
    EncodeAssemble(w);
    assert Pow256(4) == 256 * Pow256(3) && Pow256(3) == 256 * Pow256(2) && Pow256(2) == 256 * Pow256(1);
  }
}
