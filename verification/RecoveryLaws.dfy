/**
 * CRC-32 as a remainder, and the bytes of a frame. The register holds what long division of the message by the polynomial of
 * section 8 of RFC 1952 leaves, with coefficients of GF(2) written out from the highest power down.
 */
module RecoveryLaws {
  import opened Basics
  import opened PowersOfTwo
  import opened Words
  import opened LittleEndian
  import opened Recovery

  // ---------- Long division ----------

  /** The exponents of the polynomial, below its leading x^32. */
  predicate InGenerator(exponent: nat)
  {
    exponent in {26, 23, 22, 16, 12, 11, 10, 8, 7, 5, 4, 2, 1, 0}
  }

  /** Its coefficients below x^32, from x^31 down. */
  function Generator(): (g: Crc)
  {
    seq(32, i requires 0 <= i < 32 => InGenerator(31 - i))
  }

  /** What is left of a polynomial after division: take the leading term away with the generator, until 32 coefficients are left. */
  function Remainder(p: Bits): (r: Bits)
    requires |p| >= 32
    ensures |r| == 32
    decreases |p|
  {
    if |p| == 32 then p
    else if p[0] then Remainder(Xor(p[1..33], Generator()) + p[33..])
    else Remainder(p[1..])
  }

  /** The message as it is sent: every byte from its least significant bit. */
  function Message(bytes: seq<u8>): (m: Bits)
    ensures |m| == 8 * |bytes|
  {
    if bytes == [] then [] else FromNat(bytes[0], 8) + Message(bytes[1..])
  }

  /** The message times x^32, with a word added to its first 32 coefficients. */
  function Dividend(m: Bits, c: Crc): (p: Bits)
    requires |m| >= 32
    ensures |p| == |m|
  {
    Xor(m[..32], c) + m[32..]
  }

  // ---------- One coefficient at a time ----------

  function Taken(c: Crc, b: bool): (r: Crc)
  {
    var shifted := c[1..] + [false];
    if c[0] != b then Xor(shifted, Generator()) else shifted
  }

  function AllTaken(c: Crc, bits: Bits): (r: Crc)
    decreases |bits|
  {
    if bits == [] then c else AllTaken(Taken(c, bits[0]), bits[1..])
  }

  /** One step of the division takes one coefficient into the register. */
  lemma DivisionStep(m: Bits, c: Crc)
    requires |m| > 32
    ensures Remainder(Dividend(m, c)) == Remainder(Dividend(m[1..], Taken(c, m[0])))
  {
    hide Generator;
    var p, next := Dividend(m, c), Dividend(m[1..], Taken(c, m[0]));
    if p[0] {
      assert Xor(p[1..33], Generator()) + p[33..] == next;
    } else {
      assert p[1..] == next;
    }
  }

  lemma {:induction false} DivisionTakes(bits: Bits, c: Crc)
    ensures Remainder(Dividend(bits + Zeros(32), c)) == AllTaken(c, bits)
    decreases |bits|
  {
    hide Taken, Dividend, Generator;
    var m := bits + Zeros(32);
    if bits == [] {
      NothingLeft(c);
      assert m == Zeros(32);
    } else {
      assert m[1..] == bits[1..] + Zeros(32);
      DivisionStep(m, c);
      DivisionTakes(bits[1..], Taken(c, bits[0]));
    }
  }

  lemma NothingLeft(c: Crc)
    ensures Remainder(Dividend(Zeros(32), c)) == c
  {
    assert Dividend(Zeros(32), c) == c;
  }

  // ---------- The register ----------

  /** A number's word, from its low digit up. */
  lemma {:induction false} DigitFirst(low: nat, high: nat, n: nat, k: nat)
    requires k <= n && low < Pow2(k)
    ensures FromNat(low + high * Pow2(k), n) == FromNat(low, k) + FromNat(high, n - k)
    decreases k
  {
    if k > 0 {
      var p := Pow2(k - 1);
      assert low + high * Pow2(k) == low % 2 + 2 * (low / 2 + high * p);
      DigitFirst(low / 2, high, n - 1, k - 1);
      var v := low + high * Pow2(k);
      assert v / 2 == low / 2 + high * p && v % 2 == low % 2;
      assert FromNat(v, n) == [v % 2 == 1] + FromNat(v / 2, n - 1);
    }
  }

  lemma FirstByte()
    ensures FromNat(0x20, 8) == [false, false, false, false, false, true, false, false]
  {
  }

  lemma SecondByte()
    ensures FromNat(0x83, 8) == [true, true, false, false, false, false, false, true]
  {
  }

  lemma ThirdByte()
    ensures FromNat(0xb8, 8) == [false, false, false, true, true, true, false, true]
  {
  }

  lemma LastByte()
    ensures FromNat(0xed, 8) == [true, false, true, true, false, true, true, true]
  {
  }

  /** The program's constant is the generator, least significant bit for x^31. */
  lemma PolynomialIsGenerator()
    ensures Polynomial() == Generator()
  {
    hide FromNat, Pow2;
    Power32();
    DigitFirst(0x20, 0xedb883, 32, 8);
    DigitFirst(0x83, 0xedb8, 24, 8);
    DigitFirst(0xb8, 0xed, 16, 8);
    FirstByte();
    SecondByte();
    ThirdByte();
    LastByte();
  }

  /** One step of the register is one coefficient taken, with the rest of the mixed-in bits moved up. */
  lemma StepTakes(c: Crc, e: Crc)
    ensures BitStep(Xor(c, e)) == Xor(Taken(c, e[0]), Shift(LSR, e, 1))
  {
    hide Polynomial, Generator, FromNat;
    PolynomialIsGenerator();
  }

  lemma {:induction false} TakenAppend(c: Crc, bits: Bits, b: bool)
    ensures AllTaken(c, bits + [b]) == Taken(AllTaken(c, bits), b)
    decreases |bits|
  {
    hide Taken;
    if bits == [] {
      assert ([] + [b])[1..] == [];
    } else {
      assert (bits + [b])[1..] == bits[1..] + [b];
      TakenAppend(Taken(c, bits[0]), bits[1..], b);
    }
  }

  /** e moved up by n places, towards its least significant bit. */
  function MovedUp(e: Crc, n: nat): (r: Crc)
    requires n <= 32
  {
    e[n..] + Zeros(n)
  }

  lemma {:induction false} StepsTake(c: Crc, e: Crc, n: nat)
    requires n <= 32
    ensures BitSteps(Xor(c, e), n) == Xor(AllTaken(c, e[..n]), MovedUp(e, n))
    decreases n
  {
    hide BitStep, Taken, Xor;
    if n == 0 {
      assert MovedUp(e, 0) == e && e[..0] == [];
    } else {
      StepsTake(c, e, n - 1);
      StepTakes(AllTaken(c, e[..n - 1]), MovedUp(e, n - 1));
      assert e[..n] == e[..n - 1] + [e[n - 1]];
      TakenAppend(c, e[..n - 1], e[n - 1]);
      assert Shift(LSR, MovedUp(e, n - 1), 1) == MovedUp(e, n);
    }
  }

  /** A byte step takes the eight bits of the byte, least significant first. */
  lemma ByteTakes(c: Crc, b: u8)
    ensures ByteStep(c, b) == AllTaken(c, FromNat(b, 8))
  {
    hide FromNat, BitSteps, AllTaken;
    var e := Extend(FromNat(b, 8), 32);
    StepsTake(c, e, 8);
    assert e[..8] == FromNat(b, 8);
    assert MovedUp(e, 8) == Zeros(32);
    var r := AllTaken(c, FromNat(b, 8));
    assert Xor(r, Zeros(32)) == r;
  }

  lemma {:induction false} AllTakenAppend(c: Crc, bits: Bits, more: Bits)
    ensures AllTaken(c, bits + more) == AllTaken(AllTaken(c, bits), more)
    decreases |bits|
  {
    hide Taken;
    if bits == [] {
      assert [] + more == more;
    } else {
      assert (bits + more)[1..] == bits[1..] + more;
      AllTakenAppend(Taken(c, bits[0]), bits[1..], more);
    }
  }

  lemma {:induction false} RegisterTakes(c: Crc, bytes: seq<u8>)
    ensures Register(c, bytes) == AllTaken(c, Message(bytes))
    decreases |bytes|
  {
    hide ByteStep, FromNat, Taken;
    if bytes != [] {
      ByteTakes(c, bytes[0]);
      RegisterTakes(ByteStep(c, bytes[0]), bytes[1..]);
      AllTakenAppend(c, FromNat(bytes[0], 8), Message(bytes[1..]));
    }
  }

  /** The register after a message is the remainder of the message times x^32, with the start added to its first coefficients. */
  lemma RegisterIsRemainder(c: Crc, bytes: seq<u8>)
    ensures Register(c, bytes) == Remainder(Dividend(Message(bytes) + Zeros(32), c))
  {
    hide Register, Message, Remainder, Dividend, AllTaken;
    RegisterTakes(c, bytes);
    DivisionTakes(Message(bytes), c);
  }

  /** CRC-32: the complement of the remainder, with the first 32 bits of the message complemented. */
  lemma CrcIsRemainder(bytes: seq<u8>)
    ensures Crc32(bytes) == Val(Not(Remainder(Dividend(Message(bytes) + Zeros(32), Ones(32)))))
  {
    hide Register, Message, Remainder, Dividend, Val;
    RegisterIsRemainder(Ones(32), bytes);
  }

  // ---------- Frames ----------

  /** The number in four bytes, the least significant first. */
  function FourBytes(b: seq<u8>, at: nat): (v: nat)
    requires at + 4 <= |b|
  {
    b[at] as nat + 0x100 * b[at + 1] as nat + 0x1_0000 * b[at + 2] as nat + 0x100_0000 * b[at + 3] as nat
  }

  lemma FieldMeans(b: seq<u8>, at: nat)
    requires at + 4 <= |b|
    ensures FieldAt(b, at) == FourBytes(b, at)
  {
    var s := b[at..at + 4];
    var t := s[1..];
    var u := t[1..];
    assert u[1..] == [s[3]] && [s[3]][1..] == [];
    assert Assemble([s[3]]) == s[3] as nat;
    assert Assemble(u) == s[2] as nat + 0x100 * s[3] as nat;
    assert Assemble(t) == s[1] as nat + 0x100 * Assemble(u);
  }

  /** A frame is the letters VFR1, the sequence number, the flags, the length, the CRC of the payload, and the payload. */
  predicate IsFrame(f: seq<u8>, sequence: nat, flags: nat, payload: seq<u8>)
  {
    && |f| == 20 + |payload| && f[20..] == payload
    && f[0] == 0x56 && f[1] == 0x46 && f[2] == 0x52 && f[3] == 0x31
    && FourBytes(f, 4) == sequence && FourBytes(f, 8) == flags && FourBytes(f, 12) == |payload|
    && FourBytes(f, 16) == Val(Not(Remainder(Dividend(Message(payload) + Zeros(32), Ones(32)))))
  }

  lemma MagicBytes(f: seq<u8>)
    requires |f| >= 4
    ensures FourBytes(f, 0) == 0x3152_4656 <==> f[0] == 0x56 && f[1] == 0x46 && f[2] == 0x52 && f[3] == 0x31
  {
  }

  /** What is encoded is such a frame. */
  lemma EncodedIsFrame(sequence: u32, flags: u32, payload: seq<u8>)
    requires |payload| <= 1024
    ensures IsFrame(Frame(sequence, flags, payload), sequence, flags, payload)
  {
    hide Crc32, FieldAt, Frame, Remainder, Dividend, Message, Val, FourBytes;
    var f := Frame(sequence, flags, payload);
    FrameFields(sequence, flags, payload);
    FieldMeans(f, 0);
    FieldMeans(f, 4);
    FieldMeans(f, 8);
    FieldMeans(f, 12);
    FieldMeans(f, 16);
    MagicBytes(f);
    CrcIsRemainder(payload);
  }

  /** A frame is accepted exactly when it is one, with the expected number, some flags, and at most 1024 bytes. */
  lemma AcceptedIsFrame(expected: u32, f: seq<u8>)
    ensures Check(expected, f) == Ok <==>
      |f| >= 20 && |f| - 20 <= 1024 && IsFrame(f, expected, FourBytes(f, 8), f[20..])
  {
    hide Crc32, FieldAt, Remainder, Dividend, Message, Val, FourBytes;
    if |f| >= 20 {
      FieldMeans(f, 0);
      FieldMeans(f, 4);
      FieldMeans(f, 12);
      FieldMeans(f, 16);
      MagicBytes(f);
      CrcIsRemainder(f[20..]);
    }
  }
}
