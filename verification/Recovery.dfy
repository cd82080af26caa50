/** The recovery envelope (devices/recovery_v1.c): CRC-32 (section 8 of RFC 1952), frames, ingestion. */
module Recovery {
  import opened Basics
  import opened PowersOfTwo
  import opened LittleEndian
  import opened Words

  const MAX_PAYLOAD := 1024
  const HEADER := 20
  const MAGIC := 0x31524656
  const POLYNOMIAL := 0xedb88320

  datatype Code = Ok | ShortFrame | BadMagic | BadLength | BadChecksum | SequenceMismatch | PayloadLarge | OutputSmall

  // ---------- CRC-32 ----------

  type Crc = s: Bits | |s| == 32 witness Zeros(32)

  function Polynomial(): (crc: Crc)
  {
    FromNat(POLYNOMIAL, 32)
  }

  /** One bit step: shift right, and fold the polynomial in when a one falls out. */
  function BitStep(c: Crc): (crc: Crc)
  {
    var shifted := Shift(LSR, c, 1);
    if c[0] then Xor(shifted, Polynomial()) else shifted
  }

  function BitSteps(c: Crc, n: nat): (crc: Crc)
    decreases n
  {
    if n == 0 then c else BitStep(BitSteps(c, n - 1))
  }

  function ByteStep(c: Crc, b: u8): (crc: Crc)
  {
    BitSteps(Xor(c, Extend(FromNat(b, 8), 32)), 8)
  }

  /** The register after some bytes. */
  function Register(c: Crc, bytes: seq<u8>): (crc: Crc)
    decreases |bytes|
  {
    if bytes == [] then c else Register(ByteStep(c, bytes[0]), bytes[1..])
  }

  function Crc32(bytes: seq<u8>): (v: u32)
  {
    BelowPower(Not(Register(Ones(32), bytes)));
    Val(Not(Register(Ones(32), bytes)))
  }

  lemma Power32()
    ensures Pow2(32) == 0x1_0000_0000 && Pow2(31) == 0x8000_0000 && Pow2(8) == 256
  {
    assert Pow2(4) == 16 by { assert Pow2(2) == 4 by { Pow2Next(0); Pow2Next(1); } Pow2Next(2); Pow2Next(3); }
    Pow2Add(4, 4);
    Pow2Add(8, 8);
    Pow2Add(16, 16);
    Pow2Next(31);
  }

  lemma BelowPower(c: Crc)
    ensures Val(c) < 0x1_0000_0000
  {
    ValBound(c);
    Power32();
  }

  /** The polynomial's top bit is set, which is what makes a step reversible. */
  lemma PolynomialTop()
    ensures Polynomial()[31]
  {
    Power32();
    ValFromNat(POLYNOMIAL, 32);
    ModUnique(POLYNOMIAL, Pow2(32), 0, POLYNOMIAL);
    ValMsb(Polynomial());
  }

  /** The step taken backwards: the top bit tells what fell out. */
  function BackStep(c: Crc): (crc: Crc)
  {
    var unfolded := if c[31] then Xor(c, Polynomial()) else c;
    Shift(LSL, unfolded, 1)[0 := c[31]]
  }

  /** The bit step is a bijection on 32-bit states, with BackStep as its inverse. */
  lemma StepInvertible(c: Crc)
    ensures BackStep(BitStep(c)) == c && BitStep(BackStep(c)) == c
  {
    hide FromNat;
    PolynomialTop();
    var p := Polynomial();
    assert BitStep(c)[31] == c[0];
    var back := BackStep(BitStep(c));
    forall i | 0 <= i < 32 ensures back[i] == c[i] {
      if i > 0 {
        assert Shift(LSR, c, 1)[i - 1] == c[i];
      }
    }
    var before := BackStep(c);
    assert before[0] == c[31];
    var again := BitStep(before);
    forall i | 0 <= i < 32 ensures again[i] == c[i] {
      if i < 31 {
        assert Shift(LSR, before, 1)[i] == before[i + 1];
      }
    }
    assert again == c;
  }

  lemma {:induction false} StepsInjective(c: Crc, d: Crc, n: nat)
    requires BitSteps(c, n) == BitSteps(d, n)
    ensures c == d
    decreases n
  {
    hide BitStep, BackStep;
    if n > 0 {
      StepInvertible(BitSteps(c, n - 1));
      StepInvertible(BitSteps(d, n - 1));
      StepsInjective(c, d, n - 1);
    }
  }

  lemma XorInjective(c: Crc, d: Crc, x: Crc, y: Crc)
    requires Xor(c, x) == Xor(d, y)
    ensures (x == y ==> c == d) && (c == d ==> x == y)
  {
    forall i | 0 <= i < 32 ensures (c[i] != x[i]) == (d[i] != y[i]) {
      assert Xor(c, x)[i] == Xor(d, y)[i];
    }
  }

  /** Different bytes have different words. */
  lemma ByteWords(b: u8, c: u8)
    requires Extend(FromNat(b, 8), 32) == Extend(FromNat(c, 8), 32)
    ensures b == c
  {
    Power32();
    LowExtend(FromNat(b, 8), 32);
    LowExtend(FromNat(c, 8), 32);
    ValFromNat(b, 8);
    ValFromNat(c, 8);
    ModUnique(b, 256, 0, b);
    ModUnique(c, 256, 0, c);
  }

  /** One byte step separates different registers, and different bytes. */
  lemma ByteStepInjective(c: Crc, d: Crc, a: u8, b: u8)
    requires ByteStep(c, a) == ByteStep(d, b)
    ensures (a == b ==> c == d) && (c == d ==> a == b)
  {
    hide FromNat, BitSteps, Xor, Extend;
    var x, y := Extend(FromNat(a, 8), 32), Extend(FromNat(b, 8), 32);
    StepsInjective(Xor(c, x), Xor(d, y), 8);
    XorInjective(c, d, x, y);
    if x == y {
      ByteWords(a, b);
    }
  }

  lemma {:induction false} RegisterInjective(c: Crc, d: Crc, bytes: seq<u8>)
    requires Register(c, bytes) == Register(d, bytes)
    ensures c == d
    decreases |bytes|
  {
    hide ByteStep;
    if bytes != [] {
      RegisterInjective(ByteStep(c, bytes[0]), ByteStep(d, bytes[0]), bytes[1..]);
      ByteStepInjective(c, d, bytes[0], bytes[0]);
    }
  }

  /** Changing one byte changes the register. */
  lemma {:induction false} OneByteChangesRegister(c: Crc, bytes: seq<u8>, k: nat, b: u8)
    requires k < |bytes| && bytes[k] != b
    ensures Register(c, bytes[k := b]) != Register(c, bytes)
    decreases k
  {
    hide ByteStep;
    if k == 0 {
      assert bytes[0 := b][1..] == bytes[1..];
      if Register(c, bytes[0 := b]) == Register(c, bytes) {
        RegisterInjective(ByteStep(c, b), ByteStep(c, bytes[0]), bytes[1..]);
        ByteStepInjective(c, c, b, bytes[0]);
      }
    } else {
      assert bytes[k := b][1..] == bytes[1..][k - 1 := b];
      OneByteChangesRegister(ByteStep(c, bytes[0]), bytes[1..], k - 1, b);
    }
  }

  /** Any corruption confined to one byte changes the checksum. */
  lemma OneByteChangesCrc(bytes: seq<u8>, k: nat, b: u8)
    requires k < |bytes| && bytes[k] != b
    ensures Crc32(bytes[k := b]) != Crc32(bytes)
  {
    hide Register, Val;
    var x, y := Register(Ones(32), bytes[k := b]), Register(Ones(32), bytes);
    OneByteChangesRegister(Ones(32), bytes, k, b);
    if Val(Not(x)) == Val(Not(y)) {
      ValInjective(Not(x), Not(y));
      NotInjective(x, y);
    }
  }

  lemma NotInjective(x: Crc, y: Crc)
    requires Not(x) == Not(y)
    ensures x == y
  {
    forall i | 0 <= i < 32 ensures x[i] == y[i] {
      assert Not(x)[i] == Not(y)[i];
    }
  }

  lemma {:induction false} RegisterAppend(c: Crc, bytes: seq<u8>, b: u8)
    ensures Register(c, bytes + [b]) == ByteStep(Register(c, bytes), b)
    decreases |bytes|
  {
    hide ByteStep;
    if bytes == [] {
      assert ([] + [b])[1..] == [];
    } else {
      assert (bytes + [b])[1..] == bytes[1..] + [b];
      RegisterAppend(ByteStep(c, bytes[0]), bytes[1..], b);
    }
  }

  /** The two loops: bytes, and eight bit steps for each. */
  method ComputeCrc(bytes: seq<u8>) returns (v: u32)
    ensures v == Crc32(bytes)
  {
    hide BitStep, FromNat, Val;
    var crc: Crc := Ones(32);
    var i := 0;
    while i < |bytes|
      invariant 0 <= i <= |bytes| && crc == Register(Ones(32), bytes[..i])
    {
      ghost var start := crc;
      crc := Xor(crc, Extend(FromNat(bytes[i], 8), 32));
      ghost var mixed := crc;
      var bit := 0;
      while bit < 8
        invariant 0 <= bit <= 8 && crc == BitSteps(mixed, bit)
      {
        crc := BitStep(crc);
        bit := bit + 1;
      }
      RegisterAppend(Ones(32), bytes[..i], bytes[i]);
      assert bytes[..i] + [bytes[i]] == bytes[..i + 1];
      i := i + 1;
    }
    assert bytes[..i] == bytes;
    BelowPower(Not(crc));
    v := Val(Not(crc));
  }

  // ---------- Frames ----------

  function FieldAt(bytes: seq<u8>, at: nat): (v: u32)
    requires at + 4 <= |bytes|
  {
    var w := bytes[at..at + 4];
    assert Assemble(w) < 0x1_0000_0000 by {
      EncodeAssemble(w);
      assert Pow256(4) == 256 * Pow256(3) && Pow256(3) == 256 * Pow256(2) && Pow256(2) == 256 * Pow256(1);
    }
    Assemble(w)
  }

  /** The frame of a payload. */
  function Frame(sequence: u32, flags: u32, payload: seq<u8>): (f: seq<u8>)
    ensures |f| == HEADER + |payload|
  {
    Encode(MAGIC, 4) + Encode(sequence, 4) + Encode(flags, 4) + Encode(|payload|, 4) + Encode(Crc32(payload), 4) + payload
  }

  datatype State = State(
    expected: u32, last: u32, flags: u32, payload: seq<u8>, payloadLen: u32, ready: bool, signatureVerified: bool)

  predicate WellFormed(s: State)
  {
    |s.payload| == MAX_PAYLOAD && s.payloadLen <= MAX_PAYLOAD
  }

  /** The frame checks, in the order they are made. */
  function Check(expected: u32, frame: seq<u8>): (code: Code)
  {
    if |frame| < HEADER then ShortFrame
    else if FieldAt(frame, 0) != MAGIC then BadMagic
    else if FieldAt(frame, 12) > MAX_PAYLOAD then PayloadLarge
    else if |frame| != HEADER + FieldAt(frame, 12) then BadLength
    else if FieldAt(frame, 16) != Crc32(frame[HEADER..]) then BadChecksum
    else if FieldAt(frame, 4) != expected then SequenceMismatch
    else Ok
  }

  /** An accepted frame replaces the payload and moves to the next sequence number; a refused one changes nothing. */
  function Ingested(s: State, frame: seq<u8>): (r: (State, Code))
    requires WellFormed(s)
    ensures WellFormed(r.0)
    ensures r.1 != Ok ==> r.0 == s
  {
    var code := Check(s.expected, frame);
    if code != Ok then (s, code) else
    var payload := frame[HEADER..];
    (State((s.expected + 1) % 0x1_0000_0000, s.expected, FieldAt(frame, 8), payload + s.payload[|payload|..], |payload|, true, false), Ok)
  }

  lemma WordOf(v: u32, before: seq<u8>, after: seq<u8>)
    ensures FieldAt(before + Encode(v, 4) + after, |before|) == v
  {
    var bytes := before + Encode(v, 4) + after;
    assert bytes[|before|..|before| + 4] == Encode(v, 4);
    assert Pow256(4) == 0x1_0000_0000 by {
      assert Pow256(4) == 256 * Pow256(3) && Pow256(3) == 256 * Pow256(2) && Pow256(2) == 256 * Pow256(1);
    }
    AssembleEncode(v, 4);
  }

  /** Every field of a frame reads back. */
  lemma FrameFields(sequence: u32, flags: u32, payload: seq<u8>)
    requires |payload| <= MAX_PAYLOAD
    ensures var f := Frame(sequence, flags, payload);
      && FieldAt(f, 0) == MAGIC && FieldAt(f, 4) == sequence && FieldAt(f, 8) == flags && FieldAt(f, 12) == |payload|
      && FieldAt(f, 16) == Crc32(payload) && f[HEADER..] == payload
  {
    hide Crc32, FieldAt, Encode;
    var f := Frame(sequence, flags, payload);
    var m, s, g, n, c := Encode(MAGIC, 4), Encode(sequence, 4), Encode(flags, 4), Encode(|payload|, 4), Encode(Crc32(payload), 4);
    WordOf(MAGIC, [], s + g + n + c + payload);
    assert f == [] + m + (s + g + n + c + payload);
    WordOf(sequence, m, g + n + c + payload);
    assert f == m + s + (g + n + c + payload);
    WordOf(flags, m + s, n + c + payload);
    assert f == (m + s) + g + (n + c + payload);
    WordOf(|payload|, m + s + g, c + payload);
    assert f == (m + s + g) + n + (c + payload);
    WordOf(Crc32(payload), m + s + g + n, payload);
    assert f == (m + s + g + n) + c + payload;
  }

  /** Ingesting an encoded frame with the expected sequence number restores payload, length and flags. */
  lemma RoundTrip(s: State, flags: u32, payload: seq<u8>)
    requires WellFormed(s) && |payload| <= MAX_PAYLOAD
    ensures var (r, code) := Ingested(s, Frame(s.expected, flags, payload));
      && code == Ok && r.payloadLen == |payload| && r.payload[..|payload|] == payload && r.flags == flags
      && r.last == s.expected && r.ready
  {
    hide Crc32, FieldAt, Frame;
    FrameFields(s.expected, flags, payload);
  }

  // ---------- Corruption ----------

  /** Changing one byte of an encoded word changes the word. */
  lemma WordChanges(frame: seq<u8>, at: nat, k: nat, b: u8)
    requires at + 4 <= |frame| && at <= k < at + 4 && frame[k] != b
    ensures FieldAt(frame[k := b], at) != FieldAt(frame, at)
  {
    var x, y := frame[at..at + 4], frame[k := b][at..at + 4];
    assert x[k - at] == frame[k] && y[k - at] == b;
    EncodeAssemble(x);
    EncodeAssemble(y);
  }

  lemma WordKept(frame: seq<u8>, at: nat, k: nat, b: u8)
    requires at + 4 <= |frame| && k < |frame| && !(at <= k < at + 4)
    ensures FieldAt(frame[k := b], at) == FieldAt(frame, at)
  {
    assert frame[k := b][at..at + 4] == frame[at..at + 4];
  }

  /** The flags are the one part of a frame that nothing protects. */
  predicate Unprotected(k: nat)
  {
    8 <= k < 12
  }

  /** A frame with one byte changed is accepted exactly when the byte is in the flags. */
  lemma OneByteCorruption(sequence: u32, flags: u32, payload: seq<u8>, k: nat, b: u8)
    requires |payload| <= MAX_PAYLOAD && k < HEADER + |payload| && Frame(sequence, flags, payload)[k] != b
    ensures Check(sequence, Frame(sequence, flags, payload)[k := b]) == Ok <==> Unprotected(k)
    ensures k >= HEADER ==> Check(sequence, Frame(sequence, flags, payload)[k := b]) == BadChecksum
  {
    hide Crc32, FieldAt, Frame;
    var f := Frame(sequence, flags, payload);
    var g := f[k := b];
    FrameFields(sequence, flags, payload);
    FieldsAfter(f, k, b);
    if k >= HEADER {
      assert g[HEADER..] == payload[k - HEADER := b];
      OneByteChangesCrc(payload, k - HEADER, b);
    } else {
      assert g[HEADER..] == payload;
    }
  }

  /** Which words one changed byte touches. */
  lemma FieldsAfter(f: seq<u8>, k: nat, b: u8)
    requires |f| >= HEADER && k < |f| && f[k] != b
    ensures var g := f[k := b];
      && (FieldAt(g, 0) == FieldAt(f, 0) <==> !(0 <= k < 4)) && (FieldAt(g, 4) == FieldAt(f, 4) <==> !(4 <= k < 8))
      && (FieldAt(g, 12) == FieldAt(f, 12) <==> !(12 <= k < 16)) && (FieldAt(g, 16) == FieldAt(f, 16) <==> !(16 <= k < 20))
  {
    hide FieldAt;
    FieldAfter(f, 0, k, b);
    FieldAfter(f, 4, k, b);
    FieldAfter(f, 12, k, b);
    FieldAfter(f, 16, k, b);
  }

  lemma FieldAfter(f: seq<u8>, at: nat, k: nat, b: u8)
    requires at + 4 <= |f| && k < |f| && f[k] != b
    ensures FieldAt(f[k := b], at) == FieldAt(f, at) <==> !(at <= k < at + 4)
  {
    hide FieldAt;
    if at <= k < at + 4 {
      WordChanges(f, at, k, b);
    } else {
      WordKept(f, at, k, b);
    }
  }

  // ---------- Runs ----------

  datatype Event = Frames(frame: seq<u8>) | ClearReady

  function Apply(s: State, e: Event): (r: State)
    requires WellFormed(s)
    ensures WellFormed(r)
  {
    match e case Frames(frame) => Ingested(s, frame).0 case ClearReady => s.(ready := false)
  }

  /** The sequence number an event's frame carries, if the frame is accepted. */
  function TakenBy(s: State, e: Event): (list: seq<u32>)
    requires WellFormed(s)
  {
    if e.Frames? && Check(s.expected, e.frame) == Ok then [FieldAt(e.frame, 4)] else []
  }

  /** The sequence numbers a run accepts, in order. */
  function Accepted(s: State, events: seq<Event>): (list: seq<u32>)
    requires WellFormed(s)
    decreases |events|
  {
    if events == [] then [] else TakenBy(s, events[0]) + Accepted(Apply(s, events[0]), events[1..])
  }

  /** An accepted frame carries the expected number; any other event leaves the expectation. */
  lemma EventCounts(s: State, e: Event)
    requires WellFormed(s)
    ensures if TakenBy(s, e) == [] then Apply(s, e).expected == s.expected
      else TakenBy(s, e) == [s.expected] && Apply(s, e).expected == (s.expected + 1) % 0x1_0000_0000
  {
    hide Crc32, FieldAt;
  }

  lemma NextCount(x: nat, k: nat)
    requires k > 0
    ensures ((x + 1) % 0x1_0000_0000 + (k - 1)) % 0x1_0000_0000 == (x + k) % 0x1_0000_0000
  {
  }

  /** Over any run the accepted sequence numbers count up from the expected one, modulo 2^32. */
  lemma {:induction false} AcceptedCount(s: State, events: seq<Event>, k: nat)
    requires WellFormed(s) && k < |Accepted(s, events)|
    ensures Accepted(s, events)[k] == (s.expected + k) % 0x1_0000_0000
    decreases |events|
  {
    hide TakenBy, Apply;
    if events != [] {
      EventCounts(s, events[0]);
      var s' := Apply(s, events[0]);
      var rest := Accepted(s', events[1..]);
      assert Accepted(s, events) == TakenBy(s, events[0]) + rest;
      if TakenBy(s, events[0]) == [] {
        AcceptedCount(s', events[1..], k);
        assert Accepted(s, events)[k] == rest[k];
      } else if k > 0 {
        AcceptedCount(s', events[1..], k - 1);
        NextCount(s.expected, k);
        assert Accepted(s, events)[k] == rest[k - 1];
      }
    }
  }

  // ---------- The transport object ----------

  /** Encodes a frame into an output buffer, refusing payloads and buffers of the wrong size. */
  method EncodeFrame(sequence: u32, flags: u32, payload: seq<u8>, output: array<u8>) returns (code: Code, length: nat)
    modifies output
    ensures code == if |payload| > MAX_PAYLOAD then PayloadLarge
                    else if output.Length < HEADER + |payload| then OutputSmall else Ok
    ensures code == Ok ==> length == HEADER + |payload| && output[..length] == Frame(sequence, flags, payload)
    ensures code == Ok ==> output[length..] == old(output[length..])
    ensures code != Ok ==> output[..] == old(output[..])
  {
    hide Crc32, Encode;
    length := 0;
    if |payload| > MAX_PAYLOAD {
      return PayloadLarge, 0;
    }
    if output.Length < HEADER + |payload| {
      return OutputSmall, 0;
    }
    var crc := ComputeCrc(payload);
    PutWord(output, 0, MAGIC);
    PutWord(output, 4, sequence);
    PutWord(output, 8, flags);
    PutWord(output, 12, |payload|);
    PutWord(output, 16, crc);
    assert output[0..4] == Encode(MAGIC, 4) && output[4..8] == Encode(sequence, 4) && output[8..12] == Encode(flags, 4);
    assert output[12..16] == Encode(|payload|, 4) && output[16..20] == Encode(crc, 4);
    ghost var header := output[..20];
    assert header == output[0..4] + output[4..8] + output[8..12] + output[12..16] + output[16..20];
    var i := 0;
    while i < |payload|
      invariant 0 <= i <= |payload| && output[..20] == header && output[20..20 + i] == payload[..i]
      invariant output[HEADER + |payload|..] == old(output[HEADER + |payload|..])
    {
      output[20 + i] := payload[i];
      assert output[20..20 + i + 1] == output[20..20 + i] + [payload[i]];
      i := i + 1;
    }
    length := HEADER + |payload|;
    assert output[..length] == output[..20] + output[20..length];
    assert payload[..|payload|] == payload;
    code := Ok;
  }

  /** Four bytes, least significant first. */
  method PutWord(output: array<u8>, at: nat, v: u32)
    requires at + 4 <= output.Length
    modifies output
    ensures output[at..at + 4] == Encode(v, 4)
    ensures forall j :: 0 <= j < output.Length && !(at <= j < at + 4) ==> output[j] == old(output[j])
  {
    var i := 0;
    while i < 4
      invariant 0 <= i <= 4
      invariant forall j :: 0 <= j < i ==> output[at + j] == ByteAt(v, j)
      invariant forall j :: 0 <= j < output.Length && !(at <= j < at + 4) ==> output[j] == old(output[j])
    {
      output[at + i] := ByteAt(v, i);
      i := i + 1;
    }
    forall j | 0 <= j < 4 ensures output[at..at + 4][j] == Encode(v, 4)[j] {
      assert output[at + j] == ByteAt(v, j);
    }
  }

  class Transport {
    var expectedSequence: u32
    var lastSequence: u32
    var flags: u32
    const payload: array<u8>
    var payloadLen: u32
    var ready: bool
    var signatureVerified: bool

    ghost predicate Valid()
      reads this, payload
    {
      payload.Length == MAX_PAYLOAD && payloadLen <= MAX_PAYLOAD
    }

    ghost function Contents(): (s: State)
      reads this, payload
    {
      State(expectedSequence, lastSequence, flags, payload[..], payloadLen, ready, signatureVerified)
    }

    constructor ()
      ensures Valid() && fresh(payload)
      ensures Contents() == State(0, 0, 0, seq(MAX_PAYLOAD, i => 0), 0, false, false)
    {
      expectedSequence, lastSequence, flags, payloadLen, ready, signatureVerified := 0, 0, 0, 0, false, false;
      payload := new u8[MAX_PAYLOAD](i => 0);
      new;
      assert payload[..] == seq(MAX_PAYLOAD, i => 0);
    }

    method Ingest(frame: seq<u8>) returns (code: Code)
      requires Valid()
      modifies this, payload
      ensures Valid() && (Contents(), code) == Ingested(old(Contents()), frame)
    {
      hide Crc32;
      if |frame| < HEADER {
        return ShortFrame;
      }
      if FieldAt(frame, 0) != MAGIC {
        return BadMagic;
      }
      var sequence, newFlags, length := FieldAt(frame, 4), FieldAt(frame, 8), FieldAt(frame, 12);
      if length > MAX_PAYLOAD {
        return PayloadLarge;
      }
      if |frame| != HEADER + length {
        return BadLength;
      }
      var body := frame[HEADER..];
      var crc := ComputeCrc(body);
      if FieldAt(frame, 16) != crc {
        return BadChecksum;
      }
      if sequence != expectedSequence {
        return SequenceMismatch;
      }
      CopyPayload(body);
      payloadLen, flags, lastSequence := length, newFlags, sequence;
      expectedSequence := (expectedSequence + 1) % 0x1_0000_0000;
      ready, signatureVerified := true, false;
      code := Ok;
    }

    /** The copied bytes replace a prefix of the buffer; what lies beyond them stays. */
    method CopyPayload(body: seq<u8>)
      requires Valid() && |body| <= MAX_PAYLOAD
      modifies payload
      ensures payload[..] == body + old(payload[..])[|body|..]
    {
      ghost var before := payload[..];
      var i := 0;
      while i < |body|
        invariant 0 <= i <= |body|
        invariant forall j :: 0 <= j < i ==> payload[j] == body[j]
        invariant forall j :: i <= j < MAX_PAYLOAD ==> payload[j] == before[j]
      {
        payload[i] := body[i];
        i := i + 1;
      }
      assert payload[..] == body + before[|body|..];
    }

    method Acknowledge()
      requires Valid()
      modifies this
      ensures Valid() && Contents() == Apply(old(Contents()), ClearReady)
    {
      ready := false;
    }
  }
}
