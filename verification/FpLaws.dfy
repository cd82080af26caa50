/**
 What the rounding modes promise, said of finite encodings and of the exact result alone: which side of
 the exact sum or quotient the delivered number lies on, how near it is, and when it is an infinity.
 Nothing here names the magnitude chosen on overflow, so these laws are what that choice answers to.
 */
module FpLaws {
  import opened Basics
  import opened PowersOfTwo
  import opened Binary32
  import FpScalar

  const PLUS_INFINITY: u32 := 0x7f80_0000
  const MINUS_INFINITY: u32 := 0xff80_0000

  lemma MagnitudeAtMost(w: u32, k: nat)
    requires IsFinite(w) && k == 253
    ensures Magnitude(w) <= 0xff_ffff * Pow2(k)
  {
    hide Pow2;
    Pow2Monotonic(Scale(w), k);
    MulOrder(Significand(w), 0xff_ffff, Pow2(Scale(w)));
    MulOrder(Pow2(Scale(w)), Pow2(k), 0xff_ffff);
  }

  /** The greatest finite magnitude is (2^24 - 1) * 2^104, in units of 2^-149. */
  lemma GreatestFinite(w: u32)
    requires IsFinite(w)
    ensures Magnitude(w) <= 0xff_ffff * Pow2(253) == Magnitude(0x7f7f_ffff) == Magnitude(0xff7f_ffff)
    ensures Representable(Size(Value(w))) && InRange(Size(Value(w)))
  {
    hide Pow2;
    MagnitudeAtMost(w, 253);
    assert Scale(0x7f7f_ffff) == 253 && Scale(0xff7f_ffff) == 253;
    assert IsForm(Magnitude(w), Significand(w), Scale(w));
  }

  lemma RangeLimit(u: nat)
    ensures InRange(u) <==> u <= 0xff_ffff * Pow2(253)
  {
    GreatestFinite(0x7f7f_ffff);
    if InRange(u) {
      var w: u32 :| IsFinite(w) && u <= Magnitude(w);
      GreatestFinite(w);
    }
  }

  lemma ValueInLimits(w: u32)
    requires IsFinite(w)
    ensures -0xff_ffff * Pow2(253) <= Value(w) <= 0xff_ffff * Pow2(253)
    ensures Representable(Size(Value(w)))
  {
    hide Magnitude, Representable, InRange;
    GreatestFinite(w);
  }

  lemma SizeScales(v: int, D: nat)
    requires D > 0
    ensures Size(v * D) == Size(v) * D
    ensures v > 0 ==> v * D > 0
    ensures v < 0 ==> v * D < 0
  {
    MulOrder(v, 0, D);
  }

  lemma ZeroRepresentable()
    ensures Representable(Size(0))
  {
    assert IsForm(0, 0, 0);
  }

  /** Zero can always be chosen, so a directed result never lies beyond it. */
  lemma DirectedSign(mode: Rounding, X: int, D: nat, r: int)
    requires D > 0 && RoundsTo(mode, X, D, r) && mode != RN
    ensures X >= 0 ==> r >= 0
    ensures X <= 0 ==> r <= 0
  {
    hide Representable;
    ZeroRepresentable();
    SizeScales(r, D);
    assert 0 * D == 0;
    match mode
    case RP => assert X <= 0 ==> r <= 0;
    case RM => assert X >= 0 ==> 0 <= r;
    case RZ =>
  }

  /** Whatever is delivered on overflow is an infinity or the greatest finite number of the sign of X. */
  lemma Saturated(mode: Rounding, X: int, D: nat, r: int, out: u32, flags: set<Flag>)
    requires IsDelivery(mode, X, D, r, out, flags) && IsFinite(out) && !InRange(Size(r))
    ensures Value(out) == if X < 0 then -0xff_ffff * Pow2(253) else 0xff_ffff * Pow2(253)
  {
    hide Magnitude, InRange;
    assert out == 0x7f7f_ffff || out == 0xff7f_ffff;
    GreatestFinite(out);
  }

  /** Towards plus infinity: the least finite number not below the exact result, or plus infinity. */
  lemma RoundsUp(X: int, D: nat, out: u32, flags: set<Flag>, w: u32)
    requires D > 0 && Delivers(RP, X, D, out, flags) && IsFinite(w)
    ensures out == PLUS_INFINITY || IsFinite(out)
    ensures IsFinite(out) ==> X <= Value(out) * D
    ensures X <= Value(w) * D ==> IsFinite(out) && Value(out) <= Value(w)
  {
    hide Magnitude, InRange, Representable, Pow2;
    var r: int :| RoundsTo(RP, X, D, r) && IsDelivery(RP, X, D, r, out, flags);
    DirectedSign(RP, X, D, r);
    RangeLimit(Size(r));
    ValueInLimits(w);
    if !InRange(Size(r)) && IsFinite(out) {
      Saturated(RP, X, D, r, out, flags);
      MulOrder(r, Value(out), D);
    }
  }

  /** Towards minus infinity: the greatest finite number not above the exact result, or minus infinity. */
  lemma RoundsDown(X: int, D: nat, out: u32, flags: set<Flag>, w: u32)
    requires D > 0 && Delivers(RM, X, D, out, flags) && IsFinite(w)
    ensures out == MINUS_INFINITY || IsFinite(out)
    ensures IsFinite(out) ==> Value(out) * D <= X
    ensures Value(w) * D <= X ==> IsFinite(out) && Value(w) <= Value(out)
  {
    hide Magnitude, InRange, Representable, Pow2;
    var r: int :| RoundsTo(RM, X, D, r) && IsDelivery(RM, X, D, r, out, flags);
    DirectedSign(RM, X, D, r);
    RangeLimit(Size(r));
    ValueInLimits(w);
    if !InRange(Size(r)) && IsFinite(out) {
      Saturated(RM, X, D, r, out, flags);
      MulOrder(Value(out), r, D);
    }
  }

  /** Towards zero: always finite, and the farthest from zero that does not pass the exact result. */
  lemma RoundsInward(X: int, D: nat, out: u32, flags: set<Flag>, w: u32)
    requires D > 0 && Delivers(RZ, X, D, out, flags) && IsFinite(w)
    ensures IsFinite(out) && Size(Value(out)) * D <= Size(X)
    ensures X >= 0 ==> Value(out) >= 0
    ensures X <= 0 ==> Value(out) <= 0
    ensures Size(Value(w)) * D <= Size(X) ==> Size(Value(w)) <= Size(Value(out))
  {
    hide Magnitude, InRange, Representable, Pow2;
    var r: int :| RoundsTo(RZ, X, D, r) && IsDelivery(RZ, X, D, r, out, flags);
    DirectedSign(RZ, X, D, r);
    RangeLimit(Size(r));
    ValueInLimits(w);
    SizeScales(r, D);
    if !InRange(Size(r)) {
      Saturated(RZ, X, D, r, out, flags);
      MulOrder(Size(Value(out)), Size(r), D);
    }
    var v := if X >= 0 then Size(Value(w)) else -(Size(Value(w)) as int);
    SizeScales(v, D);
    assert Size(v) == Size(Value(w));
  }

  /** Half a unit beyond the greatest finite number is where rounding to nearest first overflows. */
  lemma NearestRange(N: nat, D: nat, r: int)
    requires D > 0 && N > 0 && RoundsTo(RN, N, D, r)
    ensures InRange(Size(r)) <==> 2 * N < 0x1ff_ffff * Pow2(253) * D
  {
    hide Representable, InRange, RoundsTo;
    var low, high := 0xff_ffff * Pow2(253), 0x100_0000 * Pow2(253);
    RangeLimit(Size(r));
    GapEnds(0xff_ffff, 253, low, high);
    TopGap(N, D, r, low, high);
  }

  lemma OutsideTop(N: nat, D: nat, r: int, low: nat, high: nat)
    requires D > 0 && N > 0 && RoundsTo(RN, N, D, r) && low < high
    requires Representable(low) && Representable(high) && !(low * D <= N < high * D)
    ensures Size(r) <= low <==> N < low * D
  {
    NotFarther(N, D, r, if N < low * D then low else high);
    MulOrder(low, high, D);
    MulOrder(r, low, D);
    MulOrder(-(low as int), r, D);
    MulOrder(high, r, D);
    assert -(low as int) * D == -(low * D);
  }

  lemma TopGap(N: nat, D: nat, r: int, low: nat, high: nat)
    requires D > 0 && N > 0 && RoundsTo(RN, N, D, r)
    requires low == 0xff_ffff * Pow2(253) && high == 0x100_0000 * Pow2(253)
    requires Representable(low) && Representable(high)
    ensures Size(r) <= low <==> 2 * N < (low + high) * D
  {
    hide Representable, Pow2;
    if low * D <= N < high * D {
      var u := if ChoosesHigh(RN, N, D, 0xff_ffff, low, high) then high else low;
      RoundPositive(RN, N, D, 0xff_ffff, 253, low, high, u);
      RoundingUnique(RN, N, D, r, u);
    } else {
      MulOrder(low, high, 1);
      OutsideTop(N, D, r, low, high);
      assert (low + high) * D == low * D + high * D;
    }
  }

  /** To nearest: infinite exactly from that point on, and otherwise no finite number is nearer. */
  lemma RoundsNearest(X: int, D: nat, out: u32, flags: set<Flag>, w: u32)
    requires D > 0 && X != 0 && Delivers(RN, X, D, out, flags) && IsFinite(w)
    ensures IsFinite(out) <==> 2 * Size(X) < 0x1ff_ffff * Pow2(253) * D
    ensures IsFinite(out) ==> Distance(X, D, Value(out)) <= Distance(X, D, Value(w))
    ensures !IsFinite(out) ==> out == if X < 0 then MINUS_INFINITY else PLUS_INFINITY
  {
    hide Magnitude, InRange, Representable, Pow2, RoundsTo;
    var r: int :| RoundsTo(RN, X, D, r) && IsDelivery(RN, X, D, r, out, flags);
    ValueInLimits(w);
    NotFarther(X, D, r, Value(w));
    if X < 0 {
      RoundMirrored(RN, X, D, r);
      NearestRange(-X, D, -r);
    } else {
      NearestRange(X, D, r);
    }
  }

  /* ---------- The two operations ---------- */

  /**
   The delivered number against the exact X / D and any finite number w. Up: the least number not below;
   down: the greatest not above; inward: the farthest from zero not beyond; nearest: none is nearer, and
   infinite exactly from half a unit past the greatest finite number.
   */
  predicate OnItsSide(mode: Rounding, X: int, D: nat, out: u32, w: u32)
  {
    match mode
    case RP =>
      && (out == PLUS_INFINITY || (IsFinite(out) && X <= Value(out) * D))
      && (X <= Value(w) * D ==> IsFinite(out) && Value(out) <= Value(w))
    case RM =>
      && (out == MINUS_INFINITY || (IsFinite(out) && Value(out) * D <= X))
      && (Value(w) * D <= X ==> IsFinite(out) && Value(w) <= Value(out))
    case RZ =>
      && IsFinite(out) && Size(Value(out)) * D <= Size(X)
      && (if X >= 0 then Value(out) >= 0 else Value(out) <= 0)
      && (Size(Value(w)) * D <= Size(X) ==> Size(Value(w)) <= Size(Value(out)))
    case RN =>
      && (if 2 * Size(X) >= 0x1ff_ffff * Pow2(253) * D then
            out == if X < 0 then MINUS_INFINITY else PLUS_INFINITY
          else IsFinite(out) && Distance(X, D, Value(out)) <= Distance(X, D, Value(w)))
  }

  lemma DeliversOnItsSide(mode: Rounding, X: int, D: nat, out: u32, flags: set<Flag>, w: u32)
    requires D > 0 && X != 0 && Delivers(mode, X, D, out, flags) && IsFinite(w)
    ensures OnItsSide(mode, X, D, out, w)
  {
    hide Delivers, Pow2, Magnitude, Value;
    match mode
    case RP => RoundsUp(X, D, out, flags, w);
    case RM => RoundsDown(X, D, out, flags, w);
    case RZ => RoundsInward(X, D, out, flags, w);
    case RN => RoundsNearest(X, D, out, flags, w);
  }

  lemma ExactZero(mode: Rounding, D: nat, out: u32, w: u32)
    requires D > 0 && (out == 0 || out == 0x8000_0000)
    ensures OnItsSide(mode, 0, D, out, w)
  {
    hide Pow2, Magnitude;
    FpScalar.ZeroMagnitude(out);
    MulOrder(0, 0x1ff_ffff * Pow2(253), D);
    SizeScales(Value(w), D);
  }

  /** The sum of two finite numbers lies where its mode says, an exact zero and every overflow included. */
  lemma SumOnItsSide(mode: Rounding, a: u32, b: u32, out: u32, raised: set<Flag>, w: u32)
    requires IsSum(mode, a, b, out, raised) && IsFinite(a) && IsFinite(b) && IsFinite(w)
    ensures OnItsSide(mode, Value(a) + Value(b), 1, out, w)
  {
    hide Delivers, Value, OnItsSide;
    var X := Value(a) + Value(b);
    if X == 0 {
      ExactZero(mode, 1, out, w);
    } else {
      DeliversOnItsSide(mode, X, 1, out, raised, w);
    }
  }

  lemma NoMagnitude(bits: u32)
    requires Abs(bits) == 0
    ensures Magnitude(bits) == 0
  {
  }

  /** a / b is this many units of 2^-149 over the magnitude of b. */
  function Dividend(a: u32, b: u32): (X: int)
  {
    Signed(Negative(a) != Negative(b), Magnitude(a) * Pow2(149))
  }

  lemma DividendZero(a: u32, b: u32)
    ensures Dividend(a, b) == 0 <==> Magnitude(a) == 0
  {
    hide Pow2, Magnitude;
    MulOrder(0, Magnitude(a), Pow2(149));
  }

  lemma QuotientCases(mode: Rounding, a: u32, b: u32, out: u32, raised: set<Flag>)
    requires IsQuotient(mode, a, b, out, raised) && IsFinite(a) && IsFinite(b) && Abs(b) != 0
    ensures if Abs(a) == 0 then out == 0 || out == 0x8000_0000
            else Delivers(mode, Dividend(a, b), Magnitude(b), out, raised)
  {
    hide Delivers, Pow2, Magnitude;
  }

  /** The quotient of two finite numbers, the divisor not zero, lies where its mode says, overflow and zero included. */
  lemma QuotientOnItsSide(mode: Rounding, a: u32, b: u32, out: u32, raised: set<Flag>, w: u32)
    requires IsQuotient(mode, a, b, out, raised) && IsFinite(a) && IsFinite(b) && IsFinite(w)
    requires Abs(b) != 0
    ensures OnItsSide(mode, Dividend(a, b), Magnitude(b), out, w)
  {
    hide *;
    FpScalar.NonzeroMagnitude(b);
    QuotientCases(mode, a, b, out, raised);
    if Abs(a) == 0 {
      NoMagnitude(a);
      DividendZero(a, b);
      ExactZero(mode, Magnitude(b), out, w);
    } else {
      FpScalar.NonzeroMagnitude(a);
      DividendZero(a, b);
      DeliversOnItsSide(mode, Dividend(a, b), Magnitude(b), out, raised, w);
    }
  }

  /* ---------- Not-a-number and exact zeros, in numbers ---------- */

  predicate Nan(bits: u32) { bits % 0x8000_0000 > 0x7f80_0000 }
  predicate Signals(bits: u32) { Nan(bits) && bits % 0x80_0000 < 0x40_0000 }

  /** The first signalling operand with bit 22 set, or else the first not-a-number as it is; only a signalling one is invalid. */
  predicate Quieted(a: u32, b: u32, out: u32, raised: set<Flag>)
  {
    if Signals(a) then out as int == a as int + 0x40_0000 && raised == {IOC}
    else if Signals(b) then out as int == b as int + 0x40_0000 && raised == {IOC}
    else out == (if Nan(a) then a else b) && raised == {}
  }

  /** A not-a-number operand decides the result of both operations. */
  lemma NanDecides(mode: Rounding, a: u32, b: u32, out: u32, raised: set<Flag>)
    requires Nan(a) || Nan(b)
    ensures IsSum(mode, a, b, out, raised) <==> Quieted(a, b, out, raised)
    ensures IsQuotient(mode, a, b, out, raised) <==> Quieted(a, b, out, raised)
  {
    hide Delivers, Value, Magnitude, Pow2;
    SignalsMeans(a);
    SignalsMeans(b);
  }

  lemma SignalsMeans(bits: u32)
    ensures IsNan(bits) == Nan(bits) && IsSignaling(bits) == Signals(bits)
  {
  }

  /** Infinities of opposite signs have no sum, nor infinities or zeros a quotient: the default not-a-number, and invalid. */
  lemma InvalidOperations(mode: Rounding, out: u32, raised: set<Flag>)
    requires IsSum(mode, PLUS_INFINITY, MINUS_INFINITY, out, raised) || IsSum(mode, MINUS_INFINITY, PLUS_INFINITY, out, raised)
             || IsQuotient(mode, PLUS_INFINITY, MINUS_INFINITY, out, raised) || IsQuotient(mode, 0, 0x8000_0000, out, raised)
    ensures out == 0x7fc0_0000 && raised == {IOC}
  {
    hide Delivers, Value, Magnitude, Pow2;
  }

  /** An exact zero sum has the sign of its operands if they agree, and otherwise is negative only when rounding down. */
  lemma ZeroSumSign(mode: Rounding, a: u32, b: u32, out: u32, raised: set<Flag>)
    requires IsSum(mode, a, b, out, raised) && IsFinite(a) && IsFinite(b) && Value(a) + Value(b) == 0
    ensures raised == {}
    ensures a < 0x8000_0000 && b < 0x8000_0000 ==> out == 0
    ensures a >= 0x8000_0000 && b >= 0x8000_0000 ==> out == 0x8000_0000
    ensures (a < 0x8000_0000) != (b < 0x8000_0000) ==> out == if mode == RM then 0x8000_0000 else 0
  {
    hide Delivers, Value, Magnitude, Pow2;
  }

  /** Division by zero: an infinity of the sign of the quotient, with its own flag. */
  lemma DivisionByZero(mode: Rounding, a: u32, b: u32, out: u32, raised: set<Flag>)
    requires IsQuotient(mode, a, b, out, raised) && IsFinite(a) && a % 0x8000_0000 != 0 && b % 0x8000_0000 == 0
    ensures raised == {DZC} && out == if (a < 0x8000_0000) == (b < 0x8000_0000) then PLUS_INFINITY else MINUS_INFINITY
  {
    hide Delivers, Value, Magnitude, Pow2;
  }
}
