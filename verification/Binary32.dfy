/**
 The IEEE 754-2019 binary32 format and its rounding rules, written without reference to the
 implementation in FpScalar. Finite values are integers counted in units of 2^-149, the weight of
 the least subnormal bit; an exact real result is a ratio of two integers in the same unit.
 */
module Binary32 {
  import opened Basics
  import opened PowersOfTwo

  const SIGN: u32 := 0x8000_0000
  const INF: u32 := 0x7f80_0000
  const QUIET: u32 := 0x0040_0000
  const HIDDEN: u32 := 0x0080_0000

  datatype Rounding = RN | RP | RM | RZ
  datatype Flag = IOC | DZC | OFC | UFC | IXC

  /* ---------- Encoding (section 3.4) ---------- */

  function Abs(bits: u32): (magnitude: u32) { bits % SIGN }
  predicate Negative(bits: u32) { bits >= SIGN }
  predicate IsNan(bits: u32) { Abs(bits) > INF }
  predicate IsFinite(bits: u32) { Abs(bits) < INF }

  function Exponent(bits: u32): (n: nat) { Abs(bits) / HIDDEN }
  function Fraction(bits: u32): (n: nat) { bits % HIDDEN }

  /** The significand of a finite number as an integer, with the hidden bit of a normal number. */
  function Significand(bits: u32): (significand: nat)
  {
    if Exponent(bits) == 0 then Fraction(bits) else HIDDEN + Fraction(bits)
  }

  function Scale(bits: u32): (n: nat)
  {
    if Exponent(bits) == 0 then 0 else Exponent(bits) - 1
  }

  function Magnitude(bits: u32): (n: nat) { Significand(bits) * Pow2(Scale(bits)) }

  function Value(bits: u32): (v: int)
  {
    var magnitude: int := Magnitude(bits);
    if Negative(bits) then -magnitude else magnitude
  }

  /* ---------- Rounding (section 4.3), with an exponent range unbounded above ---------- */

  /** u is the significand m at scale 2^k, normalised unless it sits at the subnormal floor. */
  predicate IsForm(u: nat, m: nat, k: nat)
  {
    m < 0x100_0000 && (k == 0 || m >= HIDDEN) && u == m * Pow2(k)
  }

  ghost predicate Representable(u: nat)
  {
    exists m: nat, k: nat :: IsForm(u, m, k)
  }

  ghost predicate EvenSignificand(u: nat)
  {
    exists m: nat, k: nat :: IsForm(u, m, k) && m % 2 == 0
  }

  function Size(x: int): (n: nat) { if x < 0 then -x else x }

  function Distance(X: int, D: nat, r: int): (n: nat) { Size(X - r * D) }

  /** r is X / D rounded to a multiple of 2^-149 with a 24-bit significand. */
  ghost predicate RoundsTo(mode: Rounding, X: int, D: nat, r: int)
  {
    && Representable(Size(r))
    && match mode
       case RN =>
         && (forall v: int :: Representable(Size(v)) ==> Distance(X, D, r) <= Distance(X, D, v))
         && (forall v: int :: Representable(Size(v)) && v != r && Distance(X, D, r) == Distance(X, D, v)
                              ==> EvenSignificand(Size(r)))
       case RP => X <= r * D && forall v: int :: Representable(Size(v)) && X <= v * D ==> r <= v
       case RM => r * D <= X && forall v: int :: Representable(Size(v)) && v * D <= X ==> v <= r
       case RZ =>
         && (if X >= 0 then 0 <= r * D <= X else X <= r * D <= 0)
         && forall v: int :: Representable(Size(v)) && (if X >= 0 then 0 <= v * D <= X else X <= v * D <= 0)
                             ==> Size(v) <= Size(r)
  }

  /* ---------- Delivered result and flags (sections 7.4 to 7.6) ---------- */

  /** The magnitude delivered on overflow: infinity, or the greatest finite number. */
  function OverflowMagnitude(mode: Rounding, negative: bool): (v: u32)
  {
    if mode == RN || (mode == RP && !negative) || (mode == RM && negative) then INF else INF - 1
  }

  /** u does not exceed the greatest finite number of the format. */
  ghost predicate InRange(u: nat)
  {
    exists bits: u32 :: IsFinite(bits) && u <= Magnitude(bits)
  }

  ghost predicate IsDelivery(mode: Rounding, X: int, D: nat, r: int, out: u32, flags: set<Flag>)
  {
    && Negative(out) == (X < 0)
    && (if InRange(Size(r)) then IsFinite(out) && Value(out) == r
        else Abs(out) == OverflowMagnitude(mode, X < 0))
    && (OFC in flags <==> !InRange(Size(r)))
    && (IXC in flags <==> !InRange(Size(r)) || r * D != X)
    && (UFC in flags <==> Size(X) < HIDDEN * D && r * D != X)
    && IOC !in flags && DZC !in flags
  }

  /** out and flags are what IEEE 754 asks for when the exact result is the non-zero ratio X / D. */
  ghost predicate Delivers(mode: Rounding, X: int, D: nat, out: u32, flags: set<Flag>)
  {
    exists r: int :: RoundsTo(mode, X, D, r) && IsDelivery(mode, X, D, r, out, flags)
  }

  /* ---------- The operations, on every pair of operands ---------- */

  /** A NaN operand whose quiet bit is clear. */
  predicate IsSignaling(bits: u32) { IsNan(bits) && (bits / QUIET) % 2 == 0 }

  /** Section 6.2: the first signaling operand, made quiet, else the first NaN, unchanged. */
  predicate PropagatesNan(a: u32, b: u32, out: u32, raised: set<Flag>)
  {
    && (raised == if IsSignaling(a) || IsSignaling(b) then {IOC} else {})
    && (if IsSignaling(a) then out == a + QUIET
        else if IsSignaling(b) then out == b + QUIET
        else out == if IsNan(a) then a else b)
  }

  function SignedZero(negative: bool): (v: u32) { if negative then SIGN else 0 }
  function SignedInfinity(negative: bool): (v: u32) { SignedZero(negative) + INF }

  /** Sections 5.4.1, 6.1 to 6.3 and 7: what a + b must return and raise. */
  ghost predicate IsSum(mode: Rounding, a: u32, b: u32, out: u32, raised: set<Flag>)
  {
    if IsNan(a) || IsNan(b) then PropagatesNan(a, b, out, raised)
    else if !IsFinite(a) && !IsFinite(b) && Negative(a) != Negative(b) then
      out == INF + QUIET && raised == {IOC}
    else if !IsFinite(a) || !IsFinite(b) then
      out == (if IsFinite(a) then b else a) && raised == {}
    else
      var X := Value(a) + Value(b);
      if X != 0 then Delivers(mode, X, 1, out, raised)
      else
        && out == SignedZero(if Negative(a) == Negative(b) then Negative(a) else mode == RM)
        && raised == {}
  }

  /** Sections 5.4.1, 6.1 to 6.3 and 7: what a / b must return and raise. The exact quotient is counted in 2^-149. */
  ghost predicate IsQuotient(mode: Rounding, a: u32, b: u32, out: u32, raised: set<Flag>)
  {
    var negative := Negative(a) != Negative(b);
    if IsNan(a) || IsNan(b) then PropagatesNan(a, b, out, raised)
    else if (!IsFinite(a) && !IsFinite(b)) || (Abs(a) == 0 && Abs(b) == 0) then
      out == INF + QUIET && raised == {IOC}
    else if !IsFinite(a) then out == SignedInfinity(negative) && raised == {}
    else if !IsFinite(b) || Abs(a) == 0 then out == SignedZero(negative) && raised == {}
    else if Abs(b) == 0 then out == SignedInfinity(negative) && raised == {DZC}
    else Delivers(mode, Signed(negative, Magnitude(a) * Pow2(149)), Magnitude(b), out, raised)
  }

  /* ---------- Neighbouring representable numbers ---------- */

  /** No representable number lies strictly between two neighbours of one binade. */
  lemma GridGap(m: nat, k: nat, v: nat)
    requires m < 0x100_0000 && (k == 0 || m >= HIDDEN)
    requires Representable(v)
    ensures v <= m * Pow2(k) || (m + 1) * Pow2(k) <= v
  {
    var n: nat, j: nat :| IsForm(v, n, j);
    if j >= k {
      Pow2Add(j - k, k);
      MulAssoc(n, Pow2(j - k), Pow2(k));
      NoMultipleBetween(n * Pow2(j - k), m, Pow2(k));
    } else {
      Pow2Monotonic(j, k - 1);
      MulOrder(n, 0x100_0000, Pow2(j));
      MulOrder(HIDDEN, m, Pow2(k));
    }
  }

  lemma FormIsRepresentable(u: nat, m: nat, k: nat)
    requires IsForm(u, m, k)
    ensures Representable(u)
    ensures m % 2 == 0 ==> EvenSignificand(u)
  {
  }

  lemma CarryForm(k: nat)
    ensures IsForm(0x100_0000 * Pow2(k), HIDDEN, k + 1)
  {
    var p := Pow2(k);
    assert Pow2(k + 1) == 2 * p;
  }

  /** Both ends of a gap are representable, and a tie between them has an even end. */
  lemma GapEnds(m: nat, k: nat, low: nat, high: nat)
    requires m < 0x100_0000 && (k == 0 || m >= HIDDEN)
    requires low == m * Pow2(k) && high == (m + 1) * Pow2(k)
    ensures Representable(low) && Representable(high)
    ensures m % 2 == 0 ==> EvenSignificand(low)
    ensures m % 2 == 1 ==> EvenSignificand(high)
  {
    FormIsRepresentable(low, m, k);
    if m == 0x100_0000 - 1 {
      CarryForm(k);
      FormIsRepresentable(high, HIDDEN, k + 1);
    } else {
      FormIsRepresentable(high, m + 1, k);
    }
  }

  lemma {:induction false} FormUnique(u: nat, m: nat, k: nat, n: nat, j: nat)
    requires IsForm(u, m, k) && IsForm(u, n, j)
    ensures m == n && k == j
  {
    if k < j {
      FormBelow(u, m, k, n, j);
    } else if j < k {
      FormBelow(u, n, j, m, k);
    } else {
      MulOrder(m, n, Pow2(k));
    }
  }

  lemma FormBelow(u: nat, m: nat, k: nat, n: nat, j: nat)
    requires IsForm(u, m, k) && IsForm(u, n, j)
    ensures k >= j
  {
    if k < j {
      Pow2Monotonic(k, j - 1);
      MulOrder(m, 0x100_0000, Pow2(k));
      MulOrder(HIDDEN, n, Pow2(j));
    }
  }

  /* ---------- Rounding inside a gap ---------- */

  /** The two ends of the gap that holds a positive exact result. */
  ghost predicate IsGap(N: nat, D: nat, m: nat, k: nat, low: nat, high: nat)
  {
    && D > 0 && N > 0
    && m < 0x100_0000 && (k == 0 || m >= HIDDEN)
    && low == m * Pow2(k) && high == (m + 1) * Pow2(k)
    && low * D <= N < high * D
  }

  /** Whether the upper end is the right choice, for a positive exact result. */
  predicate ChoosesHigh(mode: Rounding, N: nat, D: nat, m: nat, low: nat, high: nat)
  {
    N != low * D &&
    match mode
    case RN => 2 * N > (low + high) * D || (2 * N == (low + high) * D && m % 2 == 1)
    case RP => true
    case RM => false
    case RZ => false
  }

  lemma OutsideGap(N: nat, D: nat, m: nat, k: nat, low: nat, high: nat, v: int)
    requires IsGap(N, D, m, k, low, high) && Representable(Size(v))
    ensures (v <= low && v * D <= low * D) || (high <= v && high * D <= v * D)
    ensures v == low || v == high || v * D < low * D || v * D > high * D
    ensures v >= 0 ==> v * D >= 0
    ensures v < 0 ==> v * D < 0
  {
    if v >= 0 { GridGap(m, k, v); }
    MulOrder(v, low, D);
    MulOrder(high, v, D);
    MulOrder(v, 0, D);
  }

  lemma RoundPositive(mode: Rounding, N: nat, D: nat, m: nat, k: nat, low: nat, high: nat, u: nat)
    requires IsGap(N, D, m, k, low, high)
    requires u == if ChoosesHigh(mode, N, D, m, low, high) then high else low
    ensures RoundsTo(mode, N, D, u)
  {
    GapEnds(m, k, low, high);
    assert (low + high) * D == low * D + high * D;
    MulOrder(0, low, D);
    forall v: int | Representable(Size(v))
      ensures (v <= low && v * D <= low * D) || (high <= v && high * D <= v * D)
      ensures v == low || v == high || v * D < low * D || v * D > high * D
      ensures v >= 0 ==> v * D >= 0
      ensures v < 0 ==> v * D < 0
    {
      OutsideGap(N, D, m, k, low, high, v);
    }
  }

  /* ---------- The rule is symmetric in the sign ---------- */

  function Mirror(mode: Rounding): (rounding: Rounding)
  {
    match mode
    case RP => RM
    case RM => RP
    case _ => mode
  }

  lemma MirrorFacts(X: int, D: nat, v: int)
    ensures (-v) * D == -(v * D) && Size(-v) == Size(v)
    ensures Distance(-X, D, -v) == Distance(X, D, v)
  {
  }

  lemma RoundMirrored(mode: Rounding, X: int, D: nat, r: int)
    requires RoundsTo(Mirror(mode), X, D, r) && X != 0
    ensures RoundsTo(mode, -X, D, -r)
  {
    MirrorFacts(X, D, r);
    forall v: int | Representable(Size(v))
      ensures mode == RN ==> Distance(-X, D, -r) <= Distance(-X, D, v)
      ensures mode == RN && v != -r && Distance(-X, D, -r) == Distance(-X, D, v) ==> EvenSignificand(Size(-r))
      ensures mode == RP && -X <= v * D ==> -r <= v
      ensures mode == RM && v * D <= -X ==> v <= -r
      ensures mode == RZ && (if -X >= 0 then 0 <= v * D <= -X else -X <= v * D <= 0) ==> Size(v) <= Size(-r)
    {
      MirrorFacts(X, D, -v);
      assert Representable(Size(-v));
    }
  }

  function Signed(negative: bool, n: nat): (v: int)
  {
    var i: int := n;
    if negative then -i else i
  }

  /** Rounding a non-zero ratio of either sign, decided by the position inside its gap. */
  lemma RoundInGap(mode: Rounding, negative: bool, N: nat, D: nat, m: nat, k: nat, low: nat, high: nat, u: nat)
    requires IsGap(N, D, m, k, low, high)
    requires u == if ChoosesHigh(if negative then Mirror(mode) else mode, N, D, m, low, high) then high else low
    ensures RoundsTo(mode, Signed(negative, N), D, Signed(negative, u))
  {
    if negative {
      RoundPositive(Mirror(mode), N, D, m, k, low, high, u);
      RoundMirrored(mode, N, D, u);
    } else {
      RoundPositive(mode, N, D, m, k, low, high, u);
    }
  }

  /* ---------- The rounding rule determines its result ---------- */

  lemma SuccessorIsOdd(m: nat, k: nat, next: nat)
    requires m < 0x100_0000 && (k == 0 || m >= HIDDEN) && m % 2 == 0
    requires next == (m + 1) * Pow2(k)
    ensures !EvenSignificand(next)
  {
    if EvenSignificand(next) {
      var n: nat, j: nat :| IsForm(next, n, j) && n % 2 == 0;
      FormUnique(next, m + 1, k, n, j);
    }
  }

  lemma EvenNeighboursCoincide(low: nat, high: nat)
    requires low < high && Representable(low) && Representable(high)
    requires EvenSignificand(low) && EvenSignificand(high)
    ensures exists v: nat :: low < v < high && Representable(v)
  {
    var m: nat, k: nat :| IsForm(low, m, k) && m % 2 == 0;
    var next := (m + 1) * Pow2(k);
    MulOrder(m, m + 1, Pow2(k));
    GapEnds(m, k, low, next);
    GridGap(m, k, high);
    SuccessorIsOdd(m, k, next);
  }

  lemma NotFarther(X: int, D: nat, r: int, v: int)
    requires RoundsTo(RN, X, D, r) && Representable(Size(v))
    ensures Distance(X, D, r) <= Distance(X, D, v)
  {
  }

  lemma NothingBetween(X: int, D: nat, r: int, s: int, v: int)
    requires D > 0 && RoundsTo(RN, X, D, r) && RoundsTo(RN, X, D, s)
    requires r < v < s
    ensures !Representable(Size(v))
  {
    if Representable(Size(v)) {
      MulOrder(r, v, D);
      MulOrder(v, s, D);
      NotFarther(X, D, r, v);
      NotFarther(X, D, s, v);
    }
  }

  /** A tie is never between two different even candidates. */
  lemma NearestTie(X: int, D: nat, r: int, s: int)
    requires D > 0 && RoundsTo(RN, X, D, r) && RoundsTo(RN, X, D, s) && r != s
    ensures EvenSignificand(Size(r)) && EvenSignificand(Size(s))
  {
    NotFarther(X, D, r, s);
    NotFarther(X, D, s, r);
  }

  lemma NearestUniquePositive(X: int, D: nat, r: int, s: int)
    requires D > 0 && RoundsTo(RN, X, D, r) && RoundsTo(RN, X, D, s)
    requires 0 <= r
    ensures s <= r
  {
    if r < s {
      NearestTie(X, D, r, s);
      EvenNeighboursCoincide(r, s);
      var v: nat :| r < v < s && Representable(v);
      NothingBetween(X, D, r, s, v);
    }
  }

  lemma NearestUnique(X: int, D: nat, r: int, s: int)
    requires D > 0 && X != 0 && RoundsTo(RN, X, D, r) && RoundsTo(RN, X, D, s)
    ensures r <= s
  {
    if s < r {
      if 0 <= s {
        NearestUniquePositive(X, D, s, r);
      } else if r <= 0 {
        RoundMirrored(RN, X, D, r);
        RoundMirrored(RN, X, D, s);
        NearestUniquePositive(-X, D, -r, -s);
      } else {
        assert IsForm(0, 0, 0);
        NothingBetween(X, D, s, r, 0);
      }
    }
  }

  lemma DirectedUnique(mode: Rounding, X: int, D: nat, r: int, s: int)
    requires D > 0 && mode != RN && RoundsTo(mode, X, D, r) && RoundsTo(mode, X, D, s)
    ensures r == s
  {
    MulOrder(r, 0, D);
    MulOrder(s, 0, D);
    MulOrder(0, r, D);
    MulOrder(0, s, D);
  }

  /** Section 4.3 names at most one rounded value. */
  lemma RoundingUnique(mode: Rounding, X: int, D: nat, r: int, s: int)
    requires D > 0 && X != 0 && RoundsTo(mode, X, D, r) && RoundsTo(mode, X, D, s)
    ensures r == s
  {
    if mode == RN {
      NearestUnique(X, D, r, s);
      NearestUnique(X, D, s, r);
    } else {
      DirectedUnique(mode, X, D, r, s);
    }
  }

  lemma FieldsDetermine(a: u32, b: u32)
    requires Negative(a) == Negative(b) && Exponent(a) == Exponent(b) && Fraction(a) == Fraction(b)
    ensures a == b
  {
    assert Abs(a) % HIDDEN == a % HIDDEN && Abs(b) % HIDDEN == b % HIDDEN;
  }

  /** Two finite encodings of one value that agree in sign are the same encoding. */
  lemma EncodingUnique(a: u32, b: u32)
    requires Negative(a) == Negative(b) && Magnitude(a) == Magnitude(b)
    ensures a == b
  {
    FormUnique(Magnitude(a), Significand(a), Scale(a), Significand(b), Scale(b));
    FieldsDetermine(a, b);
  }

  lemma IsDeliveryUnique(mode: Rounding, X: int, D: nat, r: int, a: u32, fa: set<Flag>, b: u32, fb: set<Flag>)
    requires IsDelivery(mode, X, D, r, a, fa) && IsDelivery(mode, X, D, r, b, fb)
    ensures a == b && fa == fb
  {
    if InRange(Size(r)) { EncodingUnique(a, b); }
    forall f: Flag ensures f in fa <==> f in fb {
      match f
      case IOC => case DZC => case OFC => case UFC => case IXC =>
    }
  }

  /** The delivered bits and flags are fully determined: the specification leaves no freedom. */
  lemma DeliveryUnique(mode: Rounding, X: int, D: nat, a: u32, fa: set<Flag>, b: u32, fb: set<Flag>)
    requires D > 0 && X != 0
    requires Delivers(mode, X, D, a, fa) && Delivers(mode, X, D, b, fb)
    ensures a == b && fa == fb
  {
    var r: int :| RoundsTo(mode, X, D, r) && IsDelivery(mode, X, D, r, a, fa);
    var s: int :| RoundsTo(mode, X, D, s) && IsDelivery(mode, X, D, s, b, fb);
    RoundingUnique(mode, X, D, r, s);
    IsDeliveryUnique(mode, X, D, r, a, fa, b, fb);
  }
}
