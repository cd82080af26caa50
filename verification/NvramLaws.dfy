/**
 * What the sums and numbers of an NVRAM bank are, without the steps that compute them: Adler-32 as section 8.2 of RFC 1950
 * defines it, the header checksum as a sum with end-around carry, numerals as numbers, and the bytes of a printed bank.
 */
module NvramLaws {
  import opened Basics
  import opened Words
  import opened LittleEndian
  import I = NvramImage
  import P = NvramProofs

  // ---------- Adler-32 ----------

  function ByteSum(bytes: seq<u8>): (n: nat)
  {
    if bytes == [] then 0 else bytes[0] as nat + ByteSum(bytes[1..])
  }

  /** Every byte as often as there are bytes from it to the end. */
  function RunningSum(bytes: seq<u8>): (n: nat)
  {
    if bytes == [] then 0 else |bytes| * bytes[0] + RunningSum(bytes[1..])
  }

  lemma Reduced(a: int, c: int, n: int)
    ensures (a % 65521 * n + c) % 65521 == (a * n + c) % 65521
  {
    var k := a / 65521;
    assert a == 65521 * k + a % 65521;
    assert a * n + c == (a % 65521 * n + c) + (k * n) * 65521 by {
      PowersOfTwo.Distribute(65521 * k, a % 65521, n);
      PowersOfTwo.MulAssoc(65521, k, n);
    }
    ModShift(a % 65521 * n + c, k * n, 65521);
  }

  /** One byte into the sums, as plain numbers. */
  lemma ByteIntoSums(s0: int, s1: int, b: int, n: int, bytes: int, running: int, t0: int, t1: int)
    requires t0 == (s0 + b) % 65521 && t1 == (s1 + t0) % 65521
    ensures (t0 + bytes) % 65521 == (s0 + (b + bytes)) % 65521
    ensures (t1 + n * t0 + running) % 65521 == (s1 + (n + 1) * s0 + ((n + 1) * b + running)) % 65521
  {
    Reduced(s0 + b, bytes, 1);
    Reduced(s1 + t0, n * t0 + running, 1);
    Reduced(s0 + b, s1 + running, n + 1);
    assert t0 * (n + 1) == n * t0 + t0;
    assert (s0 + b) * (n + 1) == (n + 1) * s0 + (n + 1) * b;
  }

  /** Both sums from any start: the first adds the bytes, the second adds up the first. */
  lemma {:induction false} SumsFrom(s: (nat, nat), bytes: seq<u8>)
    requires s.0 < 65521 && s.1 < 65521
    ensures I.AdlerSums(s, bytes).0 == (s.0 + ByteSum(bytes)) % 65521
    ensures I.AdlerSums(s, bytes).1 == (s.1 + |bytes| * s.0 + RunningSum(bytes)) % 65521
    decreases |bytes|
  {
    if bytes != [] {
      var rest, t := bytes[1..], I.AdlerStep(s, bytes[0]);
      SumsFrom(t, rest);
      ByteIntoSums(s.0, s.1, bytes[0], |rest|, ByteSum(rest), RunningSum(rest), t.0, t.1);
    }
  }

  /** Adler-32: one plus the bytes, and the sum of those sums, each modulo 65521, the latter in the upper half. */
  lemma AdlerClosed(bytes: seq<u8>)
    ensures I.Adler(bytes) == (|bytes| + RunningSum(bytes)) % 65521 * 0x1_0000 + (1 + ByteSum(bytes)) % 65521
  {
    SumsFrom((1, 0), bytes);
  }

  // ---------- The header checksum ----------

  /** The bytes of a header but its own checksum, up to byte n + 1. */
  function HeaderSum(h: seq<u8>, n: nat): (sum: nat)
    requires |h| == 16 && n <= 14
  {
    if n == 0 then h[0] as nat else HeaderSum(h, n - 1) + h[n + 1]
  }

  lemma {:induction false} CarriedSum(h: seq<u8>, n: nat)
    requires |h| == 16 && n <= 14
    ensures I.ChecksumUpTo(h, n) as nat % 255 == HeaderSum(h, n) % 255
    ensures I.ChecksumUpTo(h, n) == 0 <==> HeaderSum(h, n) == 0
  {
    hide I.CarryStep;
    if n > 0 {
      CarriedSum(h, n - 1);
      CarryMeans(I.ChecksumUpTo(h, n - 1), HeaderSum(h, n - 1), h[n + 1]);
    }
  }

  /** A byte added with end-around carry, to a sum that stands for another. */
  lemma CarryMeans(sum: u8, exact: nat, b: u8)
    requires sum as nat % 255 == exact % 255 && (sum == 0 <==> exact == 0)
    ensures I.CarryStep(sum, b) as nat % 255 == (exact + b) % 255
    ensures I.CarryStep(sum, b) == 0 <==> exact + b == 0
  {
    hide I.CarryStep;
    CarriedOnce(sum, b);
    var total := sum as int + b as int;
    ModShift(total, exact / 255 - sum as int / 255, 255);
    ModShift(total - 255, 1, 255);
  }

  lemma CarriedOnce(sum: u8, b: u8)
    ensures I.CarryStep(sum, b) as int == if sum as int + b as int < 256 then sum as int + b as int else sum as int + b as int - 255
  {
  }

  /** The checksum is the sum of the other fifteen bytes in one's complement: modulo 255, and zero only when they all are. */
  lemma ChecksumMeans(h: seq<u8>)
    requires |h| == 16
    ensures I.Checksum(h) as nat % 255 == HeaderSum(h, 14) % 255
    ensures I.Checksum(h) == 0 <==> HeaderSum(h, 14) == 0
  {
    CarriedSum(h, 14);
  }

  // ---------- Numerals ----------

  /** The character of a digit, in lower or upper case. */
  function Character(d: nat, upper: bool): (c: u8)
    requires d < 16
  {
    if d < 10 then 48 + d else if upper then 65 + (d - 10) else 97 + (d - 10)
  }

  /** The numeral of a number, most significant digit first. */
  function Numeral(v: nat, base: nat, upper: bool): (s: seq<u8>)
    requires base == 10 || base == 16
    ensures s != []
  {
    (if v < base then [] else Numeral(v / base, base, upper)) + [Character(v % base, upper)]
  }

  lemma CharacterValue(d: nat, base: nat, upper: bool)
    requires (base == 10 || base == 16) && d < base
    ensures I.DigitValue(Character(d, upper), base) == Some(d)
  {
  }

  /** Reading goes on after a numeral with its number, modulo 2^32. */
  lemma {:induction false} NumeralRead(v: nat, base: nat, upper: bool, rest: seq<u8>)
    requires base == 10 || base == 16
    ensures I.Digits(Numeral(v, base, upper) + rest, base, 0) == I.Digits(rest, base, v % 0x1_0000_0000)
    decreases v
  {
    hide Character, I.DigitValue, Numeral;
    var more := [Character(v % base, upper)] + rest;
    NumeralSplits(v, base, upper, rest);
    if v < base {
      DigitRead(0, v, base, upper, rest);
    } else {
      NumeralRead(v / base, base, upper, more);
      DigitRead(v / base, v % base, base, upper, rest);
      assert v / base * base + v % base == v;
    }
  }

  lemma NumeralSplits(v: nat, base: nat, upper: bool, rest: seq<u8>)
    requires base == 10 || base == 16
    ensures Numeral(v, base, upper) + rest
            == (if v < base then [] else Numeral(v / base, base, upper)) + ([Character(v % base, upper)] + rest)
  {
    hide Character;
  }

  lemma DigitRead(q: nat, d: nat, base: nat, upper: bool, rest: seq<u8>)
    requires (base == 10 || base == 16) && d < base
    ensures I.Digits([Character(d, upper)] + rest, base, q % 0x1_0000_0000) == I.Digits(rest, base, (q * base + d) % 0x1_0000_0000)
  {
    hide *;
    CharacterValue(d, base, upper);
    OneDigit(Character(d, upper), rest, base, q % 0x1_0000_0000, d);
    NextDigit(q, d, base);
  }

  lemma OneDigit(c: u8, rest: seq<u8>, base: nat, acc: u32, d: nat)
    requires I.DigitValue(c, base) == Some(d)
    ensures I.Digits([c] + rest, base, acc) == I.Digits(rest, base, (acc * base + d) % 0x1_0000_0000)
  {
    hide I.DigitValue;
    assert ([c] + rest)[1..] == rest;
  }

  lemma NextDigit(q: nat, d: nat, base: nat)
    ensures (q % 0x1_0000_0000 * base + d) % 0x1_0000_0000 == (q * base + d) % 0x1_0000_0000
  {
    var k, r := q / 0x1_0000_0000, q % 0x1_0000_0000;
    assert q == 0x1_0000_0000 * k + r;
    assert q * base + d == r * base + d + (k * base) * 0x1_0000_0000 by {
      PowersOfTwo.Distribute(0x1_0000_0000 * k, r, base);
      PowersOfTwo.MulAssoc(0x1_0000_0000, k, base);
    }
    ModShift(r * base + d, k * base, 0x1_0000_0000);
  }

  predicate IsDigit(c: u8, base: nat)
  {
    48 <= c <= 57 || (base == 16 && (65 <= c <= 70 || 97 <= c <= 102))
  }

  /** The number of a value is the one its leading decimal numeral writes, whatever follows that is not a digit. */
  lemma DecimalRead(v: nat, rest: seq<u8>)
    requires rest == [] || (!IsDigit(rest[0], 10) && rest[0] != 120 && rest[0] != 88)
    ensures I.ParseUint(Numeral(v, 10, false) + rest) == v % 0x1_0000_0000
  {
    NumeralRead(v, 10, false, rest);
    NotPrefixed(v, rest);
  }

  lemma {:induction false} DigitsOnly(v: nat, base: nat, upper: bool, i: nat)
    requires (base == 10 || base == 16) && i < |Numeral(v, base, upper)|
    ensures IsDigit(Numeral(v, base, upper)[i], base)
    decreases v
  {
    if v >= base && i < |Numeral(v / base, base, upper)| {
      DigitsOnly(v / base, base, upper, i);
    }
  }

  /** A decimal numeral is never taken for a hexadecimal one. */
  lemma NotPrefixed(v: nat, rest: seq<u8>)
    requires rest == [] || (!IsDigit(rest[0], 10) && rest[0] != 120 && rest[0] != 88)
    ensures var s := Numeral(v, 10, false) + rest; |s| >= 2 ==> s[1] != 120 && s[1] != 88
  {
    var n := Numeral(v, 10, false);
    if |n| >= 2 {
      DigitsOnly(v, 10, false, 1);
    }
  }

  /** After 0x or 0X it is the one that the hexadecimal numeral writes, in either case. */
  lemma HexadecimalRead(v: nat, upper: bool, capital: bool, rest: seq<u8>)
    requires rest == [] || !IsDigit(rest[0], 16)
    ensures I.ParseUint([48, if capital then 88 else 120] + Numeral(v, 16, upper) + rest) == v % 0x1_0000_0000
  {
    NumeralRead(v, 16, upper, rest);
    var s := [48, if capital then 88 else 120] + Numeral(v, 16, upper) + rest;
    assert s[2..] == Numeral(v, 16, upper) + rest;
  }

  // ---------- The bytes of a printed bank ----------

  /**
   What a bank is made of, byte by byte: the signature and "nvram", the header sum, Adler-32 of everything after it, least
   significant byte first, then the generation and eight zeros.
   */
  lemma BankBytes(generation: u32, parts: seq<I.Part>, bankLen: nat)
    requires I.AllStorable(parts) && I.Bank(generation, parts, bankLen).Some?
    ensures |I.Bank(generation, parts, bankLen).value| == bankLen >= 0x40
    ensures var b := I.Bank(generation, parts, bankLen).value;
      && b[0] == 0x5a && b[1] as nat % 255 == HeaderSum(b[..16], 14) % 255 && b[2] == 0 && b[3] == 2
      && b[4..16] == [110, 118, 114, 97, 109, 0, 0, 0, 0, 0, 0, 0]
      && Assemble(b[0x10..0x14]) == (|b[0x14..]| + RunningSum(b[0x14..])) % 65521 * 0x1_0000 + (1 + ByteSum(b[0x14..])) % 65521
      && Assemble(b[0x14..0x18]) == generation && b[0x18..0x20] == [0, 0, 0, 0, 0, 0, 0, 0]
  {
    hide I.Checksum, I.Adler, I.PartsBytes, I.FreeBytes, Assemble, Encode, HeaderSum, RunningSum, ByteSum;
    var b, tail := I.Bank(generation, parts, bankLen).value, I.Tail(generation, parts, bankLen);
    var h, sum := I.Header(0x5a, 2, I.BANK_NAME), Encode(I.Adler(tail), 4);
    assert b == h + sum + tail;
    assert b[..16] == h && b[0x10..0x14] == sum && b[0x14..] == tail;
    P.HeaderChecks(0x5a, 2, I.BANK_NAME);
    assert h[..] == h;
    ChecksumMeans(h);
    AdlerClosed(tail);
    P.AdlerFits(tail);
    FourBytes(I.Adler(tail));
    FourBytes(generation);
    assert tail[..4] == Encode(generation, 4) && tail[4..12] == I.Zeros(8);
    assert b[0x14..0x18] == tail[..4] && b[0x18..0x20] == tail[4..12];
  }

  lemma FourBytes(v: nat)
    requires v < 0x1_0000_0000
    ensures Assemble(Encode(v, 4)) == v
  {
    assert Pow256(4) == 0x1_0000_0000 by { assert Pow256(3) == 0x100_0000 && Pow256(2) == 0x1_0000; }
    AssembleEncode(v, 4);
  }

  /** A printed partition: its signature, its length in units of sixteen bytes, most significant first, its name and its data. */
  lemma PartitionBytes(p: I.Part)
    requires I.Storable(p)
    ensures var b, n := I.PartBytes(p), |p.data|;
      && n + 16 <= |b| < n + 32 && |b| % 16 == 0
      && b[0] == p.sig && b[1] as nat % 255 == HeaderSum(b[..16], 14) % 255
      && 16 * (b[2] as nat * 256 + b[3] as nat) == |b|
      && b[4..16] == p.name && b[16..16 + n] == p.data
      && forall i :: 16 + n <= i < |b| ==> b[i] == 0
  {
    hide I.Checksum, HeaderSum;
    var b, n := I.PartBytes(p), |p.data|;
    var units := I.Units(n);
    var h := I.Header(p.sig, units, p.name);
    assert b[..16] == h;
    P.HeaderChecks(p.sig, units, p.name);
    ChecksumMeans(h);
  }

  /** A printed variable: its name, the equals sign, its value and a terminator. */
  lemma VariableBytes(e: I.Env)
    ensures var s, n := I.Entry(e), |e.name|;
      && |s| == n + |e.value| + 2 && s[..n] == e.name && s[n] == 61
      && s[n + 1..|s| - 1] == e.value && s[|s| - 1] == 0
  {
  }

  // ---------- Limits and fixed parts ----------

  /** Setting is refused for an empty name or one of 64 bytes, a value of 256 bytes, and a 33rd variable; otherwise the variable is last. */
  lemma SettingLimits(env: seq<I.Env>, name: seq<u8>, value: seq<u8>, flags: u32)
    ensures var after := I.Set(env, name, value, flags);
      if name == [] || |name| >= 64 || |value| >= 256 || |I.Unset(env, name)| >= 32 then after == None
      else after == Some(I.Unset(env, name) + [I.Env(name, value, flags, I.ParseUint(value))])
  {
    hide I.Unset, I.ParseUint;
  }

  /** Removing takes the first variable of the name away and leaves the others in order. */
  lemma UnsettingKeeps(env: seq<I.Env>, name: seq<u8>)
    ensures if exists e :: e in env && e.name == name then
              exists i :: 0 <= i < |env| && env[i].name == name && (forall j :: 0 <= j < i ==> env[j].name != name)
                          && I.Unset(env, name) == env[..i] + env[i + 1..]
            else I.Unset(env, name) == env
  {
    hide I.FindEnv;
    var i := I.FindEnv(env, name);
    if i < |env| {
      assert env[i] in env;
    } else {
      forall e | e in env ensures e.name != name {
        var k :| 0 <= k < |env| && env[k] == e;
      }
    }
  }

  /** A bank without a common partition gets one of signature 0x70, named "common", with 0x7f0 zero bytes, unless it has eight. */
  lemma CommonMade(parts: seq<I.Part>)
    requires forall i :: 0 <= i < |parts| ==> !I.IsCommon(parts[i].name)
    ensures I.EnsureCommon(parts) == if |parts| >= 8 then None
      else Some(parts + [I.Part(0x70, [99, 111, 109, 109, 111, 110, 0, 0, 0, 0, 0, 0], seq(0x7f0, i => 0))])
  {
    hide I.FindCommon, I.IsCommon;
  }

  /** A partition is common when its name starts with "common" and a terminator. */
  lemma CommonName(name: seq<u8>)
    requires |name| == 12
    ensures I.IsCommon(name) <==> name[..7] == [99, 111, 109, 109, 111, 110, 0]
  {
  }

  /** What is left of a bank is one free partition of signature 0x7f, or zeros when there is no room for its header. */
  lemma FreeSpace(room: nat)
    ensures var b := I.FreeBytes(room);
      && |b| == room && (room < 16 ==> forall i :: 0 <= i < room ==> b[i] == 0)
      && (16 <= room < 0x10_0000 ==>
            && b[0] == 0x7f && b[2] as nat * 256 + b[3] as nat == room / 16
            && forall i :: 4 <= i < room ==> b[i] == 0)
  {
    if 16 <= room {
      hide I.Checksum;
      P.HeaderChecks(0x7f, room / 16, I.Zeros(12));
      var h := I.Header(0x7f, room / 16, I.Zeros(12));
      assert h[4..] == I.Zeros(12);
      forall i | 4 <= i < room ensures I.FreeBytes(room)[i] == 0 {
        if i < 16 { assert h[i] == h[4..][i - 4]; }
      }
    }
  }
}
