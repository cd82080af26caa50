/**
 The software binary32 unit: addition and division in four rounding modes, with three rounding bits
 below the significand and the discarded remainder jammed into the lowest of them.
 */
module FpScalar {
  import opened Basics
  import opened PowersOfTwo
  import opened Binary32
  import opened Jamming

  /* ---------- Rounding a 27-bit significand ---------- */

  /** pack's choice between the truncated significand and its successor. */
  predicate Increments(mode: Rounding, negative: bool, tail: nat, rounded: nat)
  {
    if mode == RN then tail > 4 || (tail == 4 && rounded % 2 == 1)
    else tail != 0 && ((mode == RP && !negative) || (mode == RM && negative))
  }

  /** The last three bits place the exact value inside the gap that truncation leaves. */
  lemma TailPosition(N: nat, D: nat, k: nat, m: nat, tail: nat, low: nat, high: nat)
    requires Brackets(8 * m + tail, 8 * N, D * Pow2(k)) && tail < 8 && D > 0
    requires low == m * Pow2(k) && high == (m + 1) * Pow2(k)
    ensures tail == 0 <==> N == low * D
    ensures low * D <= N < high * D
    ensures tail < 4 <==> 2 * N < (low + high) * D
    ensures tail > 4 <==> 2 * N > (low + high) * D
  {
    hide *;
    var s, p := 8 * m + tail, Pow2(k);
    EighthCompare(s, N, D * p, 2 * m);
    EighthCompare(s, N, D * p, 2 * m + 1);
    EighthCompare(s, N, D * p, 2 * m + 2);
    HalfGap(m, m, p, D, low, low);
    HalfGap(m, m + 1, p, D, low, high);
    HalfGap(m + 1, m + 1, p, D, high, high);
    Distribute(low, low, D);
    Distribute(high, high, D);
  }

  lemma HalfGap(m: nat, n: nat, p: nat, D: nat, low: nat, high: nat)
    requires low == m * p && high == n * p
    ensures (m + n) * (D * p) == (low + high) * D
  {
    Distribute(m, n, p);
    Reassociate(m + n, p, D);
  }

  lemma EighthCompare(s: nat, N: nat, E: nat, h: nat)
    requires Brackets(s, 8 * N, E)
    ensures s < 4 * h <==> 2 * N < h * E
    ensures s > 4 * h <==> 2 * N > h * E
  {
    BracketCompare(s, 8 * N, E, 4 * h);
    assert (4 * h) * E == 4 * (h * E);
  }

  lemma DirectionsAgree(mode: Rounding, negative: bool, N: nat, D: nat, k: nat, m: nat, tail: nat, low: nat, high: nat)
    requires Brackets(8 * m + tail, 8 * N, D * Pow2(k)) && tail < 8 && D > 0
    requires low == m * Pow2(k) && high == (m + 1) * Pow2(k)
    ensures Increments(mode, negative, tail, m)
            == ChoosesHigh(if negative then Mirror(mode) else mode, N, D, m, low, high)
    ensures low * D <= N < high * D
    ensures tail == 0 <==> N == low * D
  {
    hide Brackets, Pow2;
    TailPosition(N, D, k, m, tail, low, high);
  }

  /** Truncating three bits and incrementing as pack does is correct rounding of the exact value. */
  lemma PackRounds(mode: Rounding, negative: bool, N: nat, D: nat, k: nat, s: nat, rounded: nat, u: nat)
    requires N > 0 && D > 0 && Brackets(s, 8 * N, D * Pow2(k))
    requires s < 0x800_0000 && (k == 0 || s >= 0x400_0000)
    requires rounded == s / 8 + (if Increments(mode, negative, s % 8, s / 8) then 1 else 0)
    requires u == rounded * Pow2(k)
    ensures RoundsTo(mode, Signed(negative, N), D, Signed(negative, u))
    ensures s % 8 == 0 <==> u * D == N
  {
    hide Brackets, RoundsTo, Pow2, ChoosesHigh;
    var m, tail := s / 8, s % 8;
    var low, high := m * Pow2(k), (m + 1) * Pow2(k);
    DirectionsAgree(mode, negative, N, D, k, m, tail, low, high);
    RoundInGap(mode, negative, N, D, m, k, low, high, u);
    MulOrder(low, high, D);
  }

  /* ---------- Alignment and encoding ---------- */

  lemma {:induction false} HalvedByShift(s: u64, d: nat)
    requires d > 0 && s < 0x800_0000
    ensures ShiftJam(s, d) < 0x400_0000
  {
    var p := Pow2(d);
    var q, rem := ShiftIsJammed(s, d);
    assert p == 2 * Pow2(d - 1);
    MulOrder(0x400_0000, q, p);
    JammedPosition(s, p, q, rem, ShiftJam(s, d), 0x400_0000);
  }

  /** Exponent and fraction of the significand that pack rounds, after its denormalising shift. */
  function Aligned(exponent: int, s: u64): (v: u64)
  {
    if exponent < -126 then ShiftJam(s, -126 - exponent) else s
  }

  function Scaled(exponent: int): (n: nat) { if exponent < -126 then 0 else exponent + 126 }

  lemma AlignedBrackets(s: u64, exponent: int, N: nat, D: nat, lift: nat)
    requires D > 0 && exponent + 126 + lift >= 0
    requires Brackets(s, 8 * N * Pow2(lift), D * Pow2(exponent + 126 + lift))
    ensures Brackets(Aligned(exponent, s), 8 * N, D * Pow2(Scaled(exponent)))
  {
    hide Brackets, Pow2, ShiftJam;
    var l, M, p := Pow2(lift), 8 * N * Pow2(lift), Pow2(exponent + 126 + lift);
    if exponent < -126 {
      var d := -126 - exponent;
      var r := Pow2(d);
      Pow2Add(lift - d, d);
      ShiftKeepsBrackets(s, d, M, D * p);
      Pow2Zero();
      assert (8 * N * l) * D == (8 * N) * ((D * p) * r);
      BracketCross(Aligned(exponent, s), M, (D * p) * r, 8 * N, D);
    } else {
      var k := exponent + 126;
      Pow2Add(k, lift);
      assert (8 * N * l) * (D * Pow2(k)) == (8 * N) * (D * p);
      BracketCross(s, M, D * p, 8 * N, D * Pow2(k));
    }
  }

  /** Tininess before rounding is exactly an exponent below the minimum. */
  lemma TinyExponent(s: u64, exponent: int, N: nat, D: nat)
    requires D > 0 && 0x400_0000 <= s < 0x800_0000
    requires Brackets(Aligned(exponent, s), 8 * N, D * Pow2(Scaled(exponent)))
    ensures exponent < -126 <==> N < HIDDEN * D
    ensures exponent < -126 ==> Aligned(exponent, s) < 0x400_0000
  {
    hide Brackets, Pow2;
    var k := Scaled(exponent);
    EighthCompare(Aligned(exponent, s), N, D * Pow2(k), 0x100_0000);
    if exponent < -126 {
      HalvedByShift(s, -126 - exponent);
      Pow2Zero();
    } else {
      MulOrder(1, Pow2(k), D);
    }
  }

  /** A magnitude whose scale is above the largest exponent exceeds every finite number. */
  lemma BeyondRange(u: nat, m: nat, k: nat)
    requires IsForm(u, m, k) && k > 253
    ensures !InRange(u)
  {
    forall bits: u32 | IsFinite(bits) ensures Magnitude(bits) < u {
      Pow2Monotonic(Scale(bits), k - 1);
      MulOrder(Significand(bits), 0x100_0000, Pow2(Scale(bits)));
      MulOrder(HIDDEN, m, Pow2(k));
      assert Pow2(k) == 2 * Pow2(k - 1);
    }
  }

  lemma Encoded(negative: bool, m: nat, k: nat, out: u32)
    requires m < 0x100_0000 && k <= 253 && (k == 0 || m >= HIDDEN)
    requires out == (if negative then SIGN else 0) + (if m >= HIDDEN then (k + 1) * HIDDEN else 0) + m % HIDDEN
    ensures IsFinite(out) && Negative(out) == negative && Magnitude(out) == m * Pow2(k)
  {
    assert Exponent(out) == if m >= HIDDEN then k + 1 else 0;
    assert Fraction(out) == m % HIDDEN;
  }

  lemma DeliverOverflow(mode: Rounding, negative: bool, N: nat, D: nat, u: nat, out: u32)
    requires N > 0 && N >= HIDDEN * D && !InRange(u)
    requires RoundsTo(mode, Signed(negative, N), D, Signed(negative, u))
    requires out == (if negative then SIGN else 0) + OverflowMagnitude(mode, negative)
    ensures Delivers(mode, Signed(negative, N), D, out, {OFC, IXC})
  {
    hide RoundsTo, InRange;
    assert Size(Signed(negative, u)) == u;
    assert IsDelivery(mode, Signed(negative, N), D, Signed(negative, u), out, {OFC, IXC});
  }

  lemma DeliverFinite(mode: Rounding, negative: bool, N: nat, D: nat, u: nat, out: u32, flags: set<Flag>)
    requires N > 0 && IsFinite(out) && Negative(out) == negative && Magnitude(out) == u
    requires RoundsTo(mode, Signed(negative, N), D, Signed(negative, u))
    requires flags == if u * D == N then {} else if N < HIDDEN * D then {IXC, UFC} else {IXC}
    ensures Delivers(mode, Signed(negative, N), D, out, flags)
  {
    hide RoundsTo, Magnitude;
    var X, r := Signed(negative, N), Signed(negative, u);
    assert InRange(u);
    assert r * D == Signed(negative, u * D) by { MirrorFacts(0, D, u); }
    assert IsDelivery(mode, X, D, r, out, flags);
  }

  lemma NonzeroMagnitude(bits: u32)
    requires IsFinite(bits) && Abs(bits) != 0
    ensures Magnitude(bits) > 0 && Representable(Magnitude(bits))
  {
    hide Pow2;
    MulOrder(0, Significand(bits), Pow2(Scale(bits)));
    assert IsForm(Magnitude(bits), Significand(bits), Scale(bits));
  }

  /** A finite number is its own correct rounding. */
  lemma DeliverExact(mode: Rounding, bits: u32)
    requires IsFinite(bits) && Abs(bits) != 0
    ensures Value(bits) != 0 && Delivers(mode, Value(bits), 1, bits, {})
  {
    hide RoundsTo, Magnitude, Representable;
    var r := Value(bits);
    NonzeroMagnitude(bits);
    ExactRounds(mode, r);
    assert InRange(Size(r));
    assert IsDelivery(mode, r, 1, r, bits, {});
  }

  lemma ExactRounds(mode: Rounding, r: int)
    requires Representable(Size(r))
    ensures RoundsTo(mode, r, 1, r)
  {
  }

  /* ---------- Unpacking ---------- */

  /** Significand with its leading bit at 23 and exponent; lift clears the denominator of a subnormal's scale. */
  method Unpack(bits: u32) returns (fraction: u32, exponent: int, ghost lift: nat)
    requires IsFinite(bits) && Abs(bits) != 0
    ensures HIDDEN <= fraction < 0x100_0000
    ensures IsPlaced(Magnitude(bits), fraction, exponent + 126, lift)
  {
    fraction := Fraction(bits);
    var encoded: int := Exponent(bits);
    if encoded != 0 {
      exponent, lift := encoded - 127, 0;
      fraction := fraction + HIDDEN;
      Pow2Zero();
    } else {
      exponent, lift := -126, 0;
      Pow2Zero();
      while fraction < HIDDEN
        invariant 0 < fraction < 0x100_0000
        invariant exponent + 126 + lift == 0
        invariant Fraction(bits) * Pow2(lift) == fraction
        decreases HIDDEN - fraction
      {
        fraction, exponent, lift := fraction * 2, exponent - 1, lift + 1;
      }
    }
  }

  /** M == f * 2^t, with both sides multiplied by 2^lift so that every exponent is non-negative. */
  predicate IsPlaced(M: nat, f: nat, t: int, lift: nat)
  {
    t + lift >= 0 && M * Pow2(lift) == f * Pow2(t + lift)
  }

  lemma PlacedHigher(M: nat, f: nat, t: int, lift: nat, higher: nat)
    requires IsPlaced(M, f, t, lift) && lift <= higher
    ensures IsPlaced(M, f, t, higher)
  {
    hide Pow2;
    var e := higher - lift;
    Pow2Add(lift, e);
    Pow2Add(t + lift, e);
    Reassociate(M, Pow2(lift), Pow2(e));
    Reassociate(f, Pow2(t + lift), Pow2(e));
    assert M * (Pow2(lift) * Pow2(e)) == (M * Pow2(lift)) * Pow2(e);
    assert f * (Pow2(t + lift) * Pow2(e)) == (f * Pow2(t + lift)) * Pow2(e);
  }

  /* ---------- Adding a jammed significand to an exact one ---------- */

  lemma JamsSum(m: nat, s: nat, N: nat, E: nat)
    requires Jams(s, N, E) && m % 2 == 0
    ensures Jams(m + s, m * E + N, E)
  {
    assert (m + s) * E == m * E + s * E;
    assert (m + s - 1) * E == m * E + (s - 1) * E;
    assert (m + s + 1) * E == m * E + (s + 1) * E;
  }

  lemma JamsDifference(m: nat, s: nat, N: nat, E: nat)
    requires Jams(s, N, E) && m % 2 == 0 && s <= m
    ensures N <= m * E && Jams(m - s, m * E - N, E)
  {
    assert (m - s) * E == m * E - s * E;
    assert (m - s - 1) * E == m * E - (s + 1) * E;
    assert (m - s + 1) * E == m * E - (s - 1) * E;
    MulOrder(s, m, E);
    if s < m { MulOrder(s + 1, m, E); }
  }

  lemma ExactHalf(s: u64)
    requires s % 8 == 0
    ensures ShiftJam(s, 1) * 2 == s
  {
    Pow2Zero();
    Pow2Next(0);
  }

  lemma ShiftedBelow(s: u64, d: nat, least: nat, c: nat)
    requires Pow2(d) >= least && s < c * least && c % 2 == 0
    ensures ShiftJam(s, d) < c
  {
    hide ShiftJam;
    var q, rem := ShiftIsJammed(s, d);
    JammedPosition(s, Pow2(d), q, rem, ShiftJam(s, d), c);
    MulOrder(least, Pow2(d), c);
  }

  /** Alignment loses bits only at distances that leave the smaller operand below half of the larger. */
  lemma AlignedOperand(mb: u64, d: nat)
    requires mb < 0x800_0000 && mb % 8 == 0
    ensures d <= 1 ==> ShiftJam(mb, d) * Pow2(d) == mb
    ensures d >= 1 ==> ShiftJam(mb, d) < 0x400_0000
    ensures d >= 2 ==> ShiftJam(mb, d) <= 0x200_0000
  {
    hide ShiftJam;
    Pow2Zero();
    Pow2Next(0);
    if d == 0 {
      ShiftByZero(mb);
    } else {
      Pow2Monotonic(1, d);
      ShiftedBelow(mb, d, 2, 0x400_0000);
      if d == 1 {
        ExactHalf(mb);
      } else {
        Pow2Next(1);
        Pow2Monotonic(2, d);
        ShiftedBelow(mb, d, 4, 0x200_0000);
      }
    }
  }

  lemma ShiftByZero(s: u64)
    ensures ShiftJam(s, 0) == s
  {
  }

  /** The sum may still be shifted up: it is exact, already large, or one doubling away. */
  predicate Shiftable(s: nat, M: nat, E: nat)
  {
    && E > 0
    && (M == s * E || (s >= 0x400_0000 && Brackets(s, M, E)) || (s >= 0x200_0000 && Jams(s, M, E)))
  }

  lemma OddDoubles(s: nat, M: nat, E: nat)
    requires s % 2 == 1 && (s - 1) * E < M < (s + 1) * E && E > 0
    ensures Brackets(2 * s, 2 * M, E)
  {
    var low := Floor4(2 * s);
    assert low == 2 * (s - 1);
    assert low * E == 2 * ((s - 1) * E);
    assert (low + 4) * E == 2 * ((s + 1) * E);
  }

  lemma ShiftableDoubles(s: nat, M: nat, E: nat)
    requires Shiftable(s, M, E) && s < 0x400_0000
    ensures Shiftable(2 * s, 2 * M, E)
  {
    hide Brackets;
    if M == s * E {
      assert (2 * s) * E == 2 * (s * E);
    } else {
      OddDoubles(s, M, E);
    }
  }

  lemma ShiftableBrackets(s: nat, M: nat, E: nat)
    requires Shiftable(s, M, E)
    ensures Brackets(s, M, E)
  {
    if M == s * E || s < 0x400_0000 || !Brackets(s, M, E) {
      JamBrackets(s, M, E);
    }
  }

  method Normalize(sum: u64, exponent: int, ghost M: nat, ghost E: nat)
    returns (s: u64, e: int, ghost grown: nat)
    requires 0 < sum < 0x800_0000 && Shiftable(sum, M, E)
    ensures 0x400_0000 <= s < 0x800_0000 && e == exponent - grown
    ensures Brackets(s, M * Pow2(grown), E)
  {
    hide Brackets, Jams, Shiftable;
    s, e, grown := sum, exponent, 0;
    Pow2Zero();
    while s < 0x400_0000
      invariant 0 < s < 0x800_0000 && e == exponent - grown
      invariant Shiftable(s, M * Pow2(grown), E)
      decreases 0x400_0000 - s
    {
      ShiftableDoubles(s, M * Pow2(grown), E);
      assert M * Pow2(grown + 1) == 2 * (M * Pow2(grown));
      s, e, grown := s * 2, e - 1, grown + 1;
    }
    ShiftableBrackets(s, M * Pow2(grown), E);
  }

  /** Both operands over the common denominator that belongs to the larger exponent. */
  lemma AlignOperands(A: nat, fa: nat, ta: int, B: nat, fb: nat, tb: int, L: nat)
    requires IsPlaced(A, fa, ta, L) && IsPlaced(B, fb, tb, L) && tb <= ta
    requires HIDDEN <= fa < 0x100_0000 && HIDDEN <= fb < 0x100_0000
    ensures var E, s := Pow2(ta + L), ShiftJam(8 * fb, ta - tb);
            && 8 * A * Pow2(L) == (8 * fa) * E
            && Jams(s, 8 * B * Pow2(L), E)
            && (ta - tb <= 1 ==> 8 * B * Pow2(L) == s * E)
  {
    hide Pow2, ShiftJam, Jams;
    var d := ta - tb;
    var q, p, s := Pow2(tb + L), Pow2(d), ShiftJam(8 * fb, d);
    Pow2Add(tb + L, d);
    assert 8 * A * Pow2(L) == 8 * (A * Pow2(L)) && 8 * B * Pow2(L) == 8 * (B * Pow2(L));
    assert (8 * fb) * q == 8 * (fb * q) && (8 * fa) * (q * p) == 8 * (fa * (q * p));
    ShiftJamsExact(8 * fb, d, q);
    AlignedOperand(8 * fb, d);
    if d <= 1 {
      assert (s * p) * q == s * (q * p);
    }
  }

  /** The aligned sum or difference, with everything the normalisation needs. */
  lemma SumIsShiftable(ma: nat, mb: u64, d: nat, same: bool, MA: nat, MB: nat, E: nat)
    requires 0x400_0000 <= ma < 0x800_0000 && ma % 8 == 0 && mb < 0x800_0000 && mb % 8 == 0
    requires d == 0 ==> mb <= ma
    requires Jams(ShiftJam(mb, d), MB, E) && MA == ma * E
    requires d <= 1 ==> MB == ShiftJam(mb, d) * E
    ensures ShiftJam(mb, d) <= ma && MB <= MA
    ensures var sum := if same then ma + ShiftJam(mb, d) else ma - ShiftJam(mb, d);
            var M := if same then MA + MB else MA - MB;
            sum < 0x1000_0000 && Jams(sum, M, E) && Shiftable(sum, M, E)
  {
    hide ShiftJam;
    var s := ShiftJam(mb, d);
    AlignedOperand(mb, d);
    if d == 0 { assert s == mb by { ShiftByZero(mb); } }
    JamsDifference(ma, s, MB, E);
    JamsSum(ma, s, MB, E);
    JamBrackets(ma + s, MA + MB, E);
    if d <= 1 {
      assert (ma - s) * E == ma * E - s * E;
    }
  }

  /** A sum that carried into bit 27 is jammed once more. */
  lemma CarryIsShiftable(sum: u64, M: nat, E: nat)
    requires 0x800_0000 <= sum < 0x1000_0000 && Brackets(sum, M, E)
    ensures 0x400_0000 <= ShiftJam(sum, 1) < 0x800_0000
    ensures Shiftable(ShiftJam(sum, 1), M, 2 * E)
  {
    var q, rem := ShiftIsJammed(sum, 1);
    assert Pow2(1) == 2 * Pow2(0) == 2;
    ShiftKeepsBrackets(sum, 1, M, E);
  }

  lemma ZeroSum(M: nat, N: nat, sum: nat, E: nat, L: nat)
    requires Jams(sum, M, E) && M == 8 * N * Pow2(L)
    ensures sum == 0 <==> N == 0
  {
    MulOrder(0, 8 * N, Pow2(L));
    if sum > 0 {
      MulOrder(0, sum, E);
      MulOrder(0, sum - 1, E);
    }
  }

  lemma ScaleSum(A: nat, B: nat, p: nat)
    requires p > 0
    ensures 8 * B * p <= 8 * A * p <==> B <= A
    ensures 8 * (A + B) * p == 8 * A * p + 8 * B * p
    ensures B <= A ==> 8 * (A - B) * p == 8 * A * p - 8 * B * p
  {
    MulOrder(8 * B, 8 * A, p);
    MulOrder(8 * A, 8 * B, p);
  }

  /** From two unpacked operands, the larger first, to a sum standing for the exact N. */
  lemma AlignedSum(A: nat, ma: u64, ta: int, B: nat, mb: u64, tb: int, L: nat, same: bool, sum: int) returns (N: nat)
    requires ma % 8 == 0 && mb % 8 == 0 && 0x400_0000 <= ma < 0x800_0000 && 0x400_0000 <= mb < 0x800_0000
    requires IsPlaced(A, ma / 8, ta, L) && IsPlaced(B, mb / 8, tb, L)
    requires tb < ta || (tb == ta && mb <= ma)
    requires sum == if same then ma + ShiftJam(mb, ta - tb) else ma - ShiftJam(mb, ta - tb)
    ensures B <= A && N == if same then A + B else A - B
    ensures 0 <= sum < 0x1000_0000 && (sum == 0 <==> N == 0)
    ensures Jams(sum, 8 * N * Pow2(L), Pow2(ta + L)) && Shiftable(sum, 8 * N * Pow2(L), Pow2(ta + L))
  {
    hide ShiftJam, Jams, Shiftable, Brackets, Pow2;
    AlignOperands(A, ma / 8, ta, B, mb / 8, tb, L);
    SumIsShiftable(ma, mb, ta - tb, same, 8 * A * Pow2(L), 8 * B * Pow2(L), Pow2(ta + L));
    ScaleSum(A, B, Pow2(L));
    N := if same then A + B else A - B;
    ZeroSum(8 * N * Pow2(L), N, sum, Pow2(ta + L), L);
  }

  /** The normalised sum in the form that Pack asks for. */
  lemma SumForPack(s: nat, N: nat, L: nat, grown: nat, E: nat)
    requires Brackets(s, 8 * N * Pow2(L) * Pow2(grown), E)
    ensures Brackets(s, 8 * N * Pow2(L + grown), 1 * E)
  {
    hide Brackets, Pow2;
    Pow2Add(L, grown);
    Reassociate(8 * N, Pow2(L), Pow2(grown));
    assert 8 * N * (Pow2(L) * Pow2(grown)) == 8 * N * Pow2(L) * Pow2(grown);
  }

  lemma SignedSum(na: bool, A: nat, nb: bool, B: nat)
    requires B <= A
    ensures Signed(na, A) + Signed(nb, B) == Signed(na, if na == nb then A + B else A - B)
  {
  }

  /* ---------- Dividing two significands ---------- */

  lemma QuotientConstants()
    ensures Pow2(26) == 0x400_0000
    ensures 8 * Pow2(149) == 0x400_0000 * Pow2(126)
    ensures Pow2(126) == 2 * Pow2(125)
  {
    hide Pow2;
    Pow2Zero();
    Pow2Next(0);
    Pow2Next(1);
    Pow2Next(2);
    Pow2Add(3, 3);
    Pow2Add(6, 6);
    Pow2Add(12, 12);
    Pow2Add(24, 2);
    Pow2Add(149, 3);
    Pow2Add(26, 126);
    Pow2Next(125);
  }

  /** The dividend doubled when the divisor's significand is the larger, so that the quotient has 27 bits. */
  lemma QuotientCross(A: nat, fa: nat, x: nat, la: nat, B: nat, fb: nat, y: nat, lb: nat, doubled: bool)
    requires A * Pow2(la) == fa * Pow2(x) && B * Pow2(lb) == fb * Pow2(y)
    ensures var f := if doubled then 2 * fa else fa;
            var e := if doubled then 125 else 126;
            (f * 0x400_0000) * (B * Pow2(x + lb + e)) == (8 * (A * Pow2(149)) * Pow2(la + y)) * fb
  {
    hide Pow2;
    QuotientConstants();
    var e := if doubled then 125 else 126;
    var p, r, w, u := Pow2(x), Pow2(y), Pow2(e), Pow2(126);
    Pow2Add(la, y);
    Pow2Add(x + lb, e);
    Pow2Add(x, lb);
    assert B * Pow2(x + lb + e) == (fb * r) * (p * w) by {
      assert B * ((p * Pow2(lb)) * w) == (B * Pow2(lb)) * (p * w);
    }
    assert 8 * (A * Pow2(149)) * Pow2(la + y) == (0x400_0000 * u) * ((fa * p) * r) by {
      assert 8 * (A * Pow2(149)) == (8 * Pow2(149)) * A;
      assert ((0x400_0000 * u) * A) * (Pow2(la) * r) == (0x400_0000 * u) * ((A * Pow2(la)) * r);
    }
    Regroup(fa, fb, p, r, w, u, doubled);
  }

  lemma Regroup(fa: nat, fb: nat, p: nat, r: nat, w: nat, u: nat, doubled: bool)
    requires u == if doubled then 2 * w else w
    ensures ((if doubled then 2 * fa else fa) * 0x400_0000) * ((fb * r) * (p * w))
            == ((0x400_0000 * u) * ((fa * p) * r)) * fb
  {
    var core := (fa * p) * (r * fb);
    assert (fa * ((fb * r) * (p * w))) == core * w;
    assert ((fa * p) * r) * fb == core;
  }

  /** An integer quotient with its remainder jammed stands for the exact ratio. */
  lemma QuotientJams(n: nat, d: nat, q: nat)
    requires d > 0
    requires q == if n % d != 0 && (n / d) % 2 == 0 then n / d + 1 else n / d
    ensures Brackets(q, n, d)
  {
    DivisionParts(n, d);
    JammedJams(n, d, n / d, n % d, q, 1);
    JamBrackets(q, n, d);
  }

  /** The quotient of normalised significands has its leading bit at 26. */
  lemma QuotientRange(fa: nat, fb: nat, q: nat)
    requires HIDDEN <= fb <= fa < 2 * fb
    requires q == fa * 0x400_0000 / fb
    ensures 0x400_0000 <= q < 0x800_0000
  {
    DivisionParts(fa * 0x400_0000, fb);
    MulOrder(q, 0x800_0000, fb);
    MulOrder(0x400_0000, q + 1, fb);
    Distribute(q, 1, fb);
  }

  lemma QuotientForPack(A: nat, fa: nat, ta: int, la: nat, B: nat, fb: nat, tb: int, lb: nat, doubled: bool, q: nat)
    returns (lift: nat)
    requires HIDDEN <= fa && 0 < B && 0 < fb
    requires IsPlaced(A, fa, ta, la) && IsPlaced(B, fb, tb, lb)
    requires Brackets(q, (if doubled then 2 * fa else fa) * 0x400_0000, fb)
    ensures var t := if doubled then ta - tb - 1 else ta - tb;
            t + 126 + lift >= 0 && Brackets(q, 8 * (A * Pow2(149)) * Pow2(lift), B * Pow2(t + 126 + lift))
  {
    hide Brackets, Pow2;
    var x, y := ta + la, tb + lb;
    lift := la + y;
    var e := if doubled then 125 else 126;
    QuotientCross(A, fa, x, la, B, fb, y, lb, doubled);
    BracketCross(q, (if doubled then 2 * fa else fa) * 0x400_0000, fb,
                 8 * (A * Pow2(149)) * Pow2(lift), B * Pow2(x + lb + e));
  }

  method DivideSignificands(ma: u32, mb: u32) returns (quotient: u64)
    requires HIDDEN <= mb <= ma < 2 * mb && mb < 0x100_0000
    ensures 0x400_0000 <= quotient < 0x800_0000
    ensures Brackets(quotient, ma * 0x400_0000, mb)
  {
    hide Brackets;
    var numerator: u64 := ma * 0x400_0000;
    QuotientRange(ma, mb, numerator / mb);
    quotient := numerator / mb;
    if numerator % mb != 0 && quotient % 2 == 0 {
      quotient := quotient + 1;
    }
    QuotientJams(numerator, mb, quotient);
  }

  /* ---------- The unit ---------- */

  function ModeOf(field: nat): (rounding: Rounding)
  {
    if field == 0 then RN else if field == 1 then RP else if field == 2 then RM else RZ
  }

  datatype Fp32Result = Fp32Result(bits: u32, status: set<Flag>)

  class Fp32State {
    var rounding: Rounding
    var status: set<Flag>

    constructor ()
      ensures rounding == RN && status == {}
    {
      rounding, status := RN, {};
    }

    method Result(bits: u32, flags: set<Flag>) returns (out: Fp32Result)
      modifies this`status
      ensures status == old(status) + flags
      ensures out == Fp32Result(bits, status)
    {
      status := status + flags;
      out := Fp32Result(bits, status);
    }

    method Overflow(sign: u32) returns (out: Fp32Result, ghost raised: set<Flag>)
      requires sign == 0 || sign == SIGN
      modifies this`status
      ensures raised == {OFC, IXC} && status == old(status) + raised
      ensures out == Fp32Result(sign + OverflowMagnitude(rounding, sign == SIGN), status)
    {
      var infinity := rounding == RN || (rounding == RP && sign == 0) || (rounding == RM && sign != 0);
      raised := {OFC, IXC};
      out := Result(sign + (if infinity then INF else INF - 1), {OFC, IXC});
    }

    /** Round and encode a 27-bit significand standing for the exact value N / D. */
    method Pack(sign: u32, exponent: int, significand: u64, ghost N: nat, ghost D: nat, ghost lift: nat)
      returns (out: Fp32Result, ghost raised: set<Flag>)
      requires sign == 0 || sign == SIGN
      requires 0x400_0000 <= significand < 0x800_0000
      requires N > 0 && D > 0 && exponent + 126 + lift >= 0
      requires Brackets(significand, 8 * N * Pow2(lift), D * Pow2(exponent + 126 + lift))
      modifies this`status
      ensures status == old(status) + raised && out.status == status
      ensures Delivers(rounding, Signed(sign == SIGN, N), D, out.bits, raised)
    {
      hide Brackets, RoundsTo, Pow2, Increments, InRange, Delivers, Magnitude, ShiftJam;
      AlignedBrackets(significand, exponent, N, D, lift);
      TinyExponent(significand, exponent, N, D);
      ghost var k := Scaled(exponent);
      var tiny := exponent < -126;
      var s, e := significand, exponent;
      if tiny {
        s, e := ShiftJam(s, -126 - exponent), -126;
      }
      var tail, rounded := s % 8, s / 8;
      var increment := Increments(rounding, sign != 0, tail, rounded);
      var flags: set<Flag> := if tail == 0 then {} else if tiny then {IXC, UFC} else {IXC};
      rounded := if increment then rounded + 1 else rounded;
      ghost var u := rounded * Pow2(k);
      PackRounds(rounding, sign == SIGN, N, D, k, s, rounded, u);
      out, raised := Encode(sign, e, rounded, flags, N, D, u);
    }

    /** Renormalise a significand that carried, then encode it or overflow. */
    method Encode(sign: u32, exponent: int, significand: u32, flags: set<Flag>, ghost N: nat, ghost D: nat, ghost u: nat)
      returns (out: Fp32Result, ghost raised: set<Flag>)
      requires sign == 0 || sign == SIGN
      requires exponent >= -126 && significand <= 0x100_0000 && (exponent == -126 || significand >= HIDDEN)
      requires N > 0 && u == significand * Pow2(exponent + 126)
      requires exponent > -126 ==> N >= HIDDEN * D
      requires RoundsTo(rounding, Signed(sign == SIGN, N), D, Signed(sign == SIGN, u))
      requires flags == if u * D == N then {} else if N < HIDDEN * D then {IXC, UFC} else {IXC}
      modifies this`status
      ensures status == old(status) + raised && out.status == status
      ensures Delivers(rounding, Signed(sign == SIGN, N), D, out.bits, raised)
    {
      hide RoundsTo, Pow2, InRange, Delivers, Magnitude;
      var rounded, e := significand, exponent;
      if rounded >= 0x100_0000 {
        CarryForm(e + 126);
        rounded, e := rounded / 2, e + 1;
      }
      assert IsForm(u, rounded, e + 126);
      if e > 127 {
        BeyondRange(u, rounded, e + 126);
        out, raised := Overflow(sign);
        DeliverOverflow(rounding, sign == SIGN, N, D, u, out.bits);
      } else {
        raised := flags;
        var encoded := if rounded >= HIDDEN then (e + 127) * HIDDEN else 0;
        out := Result(sign + encoded + rounded % HIDDEN, flags);
        Encoded(sign == SIGN, rounded, e + 126, out.bits);
        DeliverFinite(rounding, sign == SIGN, N, D, u, out.bits, flags);
      }
    }

    method NanResult(a: u32, b: u32) returns (out: Fp32Result, ghost raised: set<Flag>)
      requires IsNan(a) || IsNan(b)
      modifies this`status
      ensures status == old(status) + raised && out.status == status
      ensures PropagatesNan(a, b, out.bits, raised)
    {
      raised := if IsSignaling(a) || IsSignaling(b) then {IOC} else {};
      if IsSignaling(a) {
        out := Result(a + QUIET, {IOC});
      } else if IsSignaling(b) {
        out := Result(b + QUIET, {IOC});
      } else {
        out := Result(if IsNan(a) then a else b, {});
      }
    }

    /** Accept only the two rounding-mode bits of a control word, without touching anything otherwise. */
    method Configure(control: u32) returns (accepted: bool)
      modifies this`rounding
      ensures accepted <==> control % 0x40_0000 == 0 && control < 0x100_0000
      ensures rounding == if accepted then ModeOf(control / 0x40_0000) else old(rounding)
      ensures control == 0 ==> accepted && rounding == RN
      ensures control == 0x0040_0000 ==> accepted && rounding == RP
      ensures control == 0x0080_0000 ==> accepted && rounding == RM
      ensures control == 0x00c0_0000 ==> accepted && rounding == RZ
    {
      accepted := control % 0x40_0000 == 0 && control / 0x100_0000 == 0;
      if accepted { rounding := ModeOf(control / 0x40_0000); }
    }

    /** The only operation that lowers a flag. */
    method ClearStatus(mask: set<Flag>)
      modifies this`status
      ensures status == old(status) - mask
    {
      status := status - mask;
    }

    /** The correctly rounded sum, for every pair of operands and every rounding mode. */
    method Add(a: u32, b: u32) returns (out: Fp32Result, ghost raised: set<Flag>)
      modifies this`status
      ensures status == old(status) + raised && out.status == status
      ensures IsSum(rounding, a, b, out.bits, raised)
    {
      hide Delivers, Pow2, Magnitude;
      var aa, ab := Abs(a), Abs(b);
      var sa, sb := SignedZero(Negative(a)), SignedZero(Negative(b));
      raised := {};
      if IsNan(a) || IsNan(b) {
        out, raised := NanResult(a, b);
      } else if aa == INF || ab == INF {
        if aa == INF && ab == INF && sa != sb {
          raised := {IOC};
          out := Result(INF + QUIET, {IOC});
        } else {
          out := Result(if aa == INF then a else b, {});
        }
      } else if aa == 0 && ab == 0 {
        ZeroMagnitude(a);
        ZeroMagnitude(b);
        out := Result(if sa == sb then sa else if rounding == RM then SIGN else 0, {});
      } else if aa == 0 || ab == 0 {
        ZeroMagnitude(if aa == 0 then a else b);
        out := Result(if aa == 0 then b else a, {});
        DeliverExact(rounding, out.bits);
      } else {
        out, raised := AddNonzero(a, b);
      }
    }

    method AddNonzero(a: u32, b: u32) returns (out: Fp32Result, ghost raised: set<Flag>)
      requires IsFinite(a) && Abs(a) != 0 && IsFinite(b) && Abs(b) != 0
      modifies this`status
      ensures status == old(status) + raised && out.status == status
      ensures IsSum(rounding, a, b, out.bits, raised)
    {
      hide Delivers, Pow2, Magnitude, ShiftJam, Jams, Brackets, Shiftable, IsPlaced;
      var sa, sb := SignedZero(Negative(a)), SignedZero(Negative(b));
      var fa, ea, la := Unpack(a);
      var fb, eb, lb := Unpack(b);
      ghost var A, B := Magnitude(a), Magnitude(b);
      ghost var L := if la < lb then lb else la;
      PlacedHigher(A, fa, ea + 126, la, L);
      PlacedHigher(B, fb, eb + 126, lb, L);
      var ma, mb := fa * 8, fb * 8;
      if ea < eb || (ea == eb && ma < mb) {
        ea, eb, ma, mb, sa, sb := eb, ea, mb, ma, sb, sa;
        A, B := B, A;
      }
      ghost var aligned := ShiftJam(mb, ea - eb);
      ghost var N := AlignedSum(A, ma, ea + 126, B, mb, eb + 126, L, sa == sb,
                                if sa == sb then ma + aligned else ma - aligned);
      mb := ShiftJam(mb, ea - eb);
      var sum := if sa == sb then ma + mb else ma - mb;
      SignedSum(sa == SIGN, A, sb == SIGN, B);
      if sum == 0 {
        raised := {};
        out := Result(if rounding == RM then SIGN else 0, {});
      } else {
        out, raised := RoundSum(sa, ea, sum, N, L);
      }
    }

    /** The correctly rounded quotient, for every pair of operands and every rounding mode. */
    method Div(a: u32, b: u32) returns (out: Fp32Result, ghost raised: set<Flag>)
      modifies this`status
      ensures status == old(status) + raised && out.status == status
      ensures IsQuotient(rounding, a, b, out.bits, raised)
    {
      hide Delivers, Pow2, Magnitude;
      var aa, ab := Abs(a), Abs(b);
      var sign := SignedZero(Negative(a) != Negative(b));
      raised := {};
      if IsNan(a) || IsNan(b) {
        out, raised := NanResult(a, b);
      } else if (aa == 0 && ab == 0) || (aa == INF && ab == INF) {
        raised := {IOC};
        out := Result(INF + QUIET, {IOC});
      } else if aa == INF {
        out := Result(sign + INF, {});
      } else if ab == INF {
        out := Result(sign, {});
      } else if ab == 0 {
        raised := {DZC};
        out := Result(sign + INF, {DZC});
      } else if aa == 0 {
        out := Result(sign, {});
      } else {
        out, raised := DivNonzero(a, b);
      }
    }

    method DivNonzero(a: u32, b: u32) returns (out: Fp32Result, ghost raised: set<Flag>)
      requires IsFinite(a) && Abs(a) != 0 && IsFinite(b) && Abs(b) != 0
      modifies this`status
      ensures status == old(status) + raised && out.status == status
      ensures IsQuotient(rounding, a, b, out.bits, raised)
    {
      hide Delivers, Pow2, Magnitude, Brackets, IsPlaced;
      var sign := SignedZero(Negative(a) != Negative(b));
      NonzeroMagnitude(a);
      NonzeroMagnitude(b);
      var ma, ea, la := Unpack(a);
      var mb, eb, lb := Unpack(b);
      ghost var fa := ma;
      var exponent := ea - eb;
      var doubled := ma < mb;
      if doubled {
        ma, exponent := ma * 2, exponent - 1;
      }
      var quotient := DivideSignificands(ma, mb);
      MulOrder(0, Magnitude(a), Pow2(149));
      ghost var lift := QuotientForPack(Magnitude(a), fa, ea + 126, la, Magnitude(b), mb, eb + 126, lb, doubled, quotient);
      out, raised := Pack(sign, exponent, quotient, Magnitude(a) * Pow2(149), Magnitude(b), lift);
    }

    method RoundSum(sign: u32, exponent: int, aligned: u64, ghost N: nat, ghost L: nat)
      returns (out: Fp32Result, ghost raised: set<Flag>)
      requires sign == 0 || sign == SIGN
      requires 0 < aligned < 0x1000_0000 && N > 0 && exponent + 126 + L >= 0
      requires Shiftable(aligned, 8 * N * Pow2(L), Pow2(exponent + 126 + L))
      modifies this`status
      ensures status == old(status) + raised && out.status == status
      ensures Delivers(rounding, Signed(sign == SIGN, N), 1, out.bits, raised)
    {
      hide *;
      var sum, ea := aligned, exponent;
      ghost var M, E := 8 * N * Pow2(L), Pow2(exponent + 126 + L);
      if sum >= 0x800_0000 {
        ShiftableBrackets(sum, M, E);
        CarryIsShiftable(sum, M, E);
        Pow2Next(ea + 126 + L);
        sum, ea, E := ShiftJam(sum, 1), ea + 1, 2 * E;
      }
      ghost var grown: nat;
      sum, ea, grown := Normalize(sum, ea, M, E);
      SumForPack(sum, N, L, grown, E);
      out, raised := Pack(sign, ea, sum, N, 1, L + grown);
    }
  }

  lemma ZeroMagnitude(bits: u32)
    requires Abs(bits) == 0
    ensures Value(bits) == 0
  {
  }

  /** An exact sum below the normal range is always representable, so addition never underflows. */
  lemma SumNeverUnderflows(mode: Rounding, a: u32, b: u32, out: u32, raised: set<Flag>)
    requires IsSum(mode, a, b, out, raised)
    ensures UFC !in raised
  {
    hide RoundsTo, Magnitude;
    if IsFinite(a) && IsFinite(b) && Value(a) + Value(b) != 0 {
      var X := Value(a) + Value(b);
      var r: int :| RoundsTo(mode, X, 1, r) && IsDelivery(mode, X, 1, r, out, raised);
      if Size(X) < HIDDEN {
        Pow2Zero();
        assert IsForm(Size(X), Size(X), 0);
        ExactRounds(mode, X);
        RoundingUnique(mode, X, 1, r, X);
      }
    }
  }
}
