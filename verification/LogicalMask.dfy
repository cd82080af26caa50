/** The bitmask immediates of the logical instructions (runtime/jit.c, logical_mask). */
module LogicalMask {
  import opened Basics
  import opened PowersOfTwo
  import opened Words
  import opened A64
  import opened Emission
  import opened BitfieldProofs
  import opened FlagBridge

  // ---------- Phases ----------

  /** Where position i falls in an element of the given size rotated right by r. */
  function Phase(i: nat, r: nat, size: nat): (p: nat)
    requires size > 0
    ensures p < size
  {
    (i + r) % size
  }

  lemma PhaseShift(i: nat, k: nat, r: nat, size: nat)
    requires size > 0
    ensures Phase(i + k * size, r, size) == Phase(i, r, size)
  {
    ModShift(i + r, k, size);
  }

  lemma PhaseStep(i: nat, r: nat, size: nat)
    requires size > 0
    ensures Phase(i + 1, r, size) == if Phase(i, r, size) == size - 1 then 0 else Phase(i, r, size) + 1
  {
    var q := (i + r) / size;
    var p := Phase(i, r, size);
    assert i + r == size * q + p;
    if p == size - 1 {
      ModUnique(i + 1 + r, size, q + 1, 0);
    } else {
      ModUnique(i + 1 + r, size, q, p + 1);
    }
  }

  lemma PhaseOfResidue(i: nat, r: nat, size: nat)
    requires size > 0 && r < size
    ensures Around(i % size, r, size) == Phase(i, r, size)
  {
    var q, j := i / size, i % size;
    assert i == size * q + j;
    ModUnique(i + r, size, if j + r < size then q else q + 1, Around(j, r, size));
  }

  // ---------- Patterns ----------

  /** A run of s+1 ones in every element of the given size, rotated right by r. */
  function Pattern(size: nat, s: nat, r: nat, n: nat): (m: Bits)
    requires size > 0
    ensures |m| == n
  {
    seq(n, i requires 0 <= i < n => Phase(i, r, size) <= s)
  }

  /** The element sizes and parameters a bitmask immediate may have. */
  predicate ValidShape(len: nat, s: nat, r: nat, n: nat)
  {
    1 <= len <= 6 && Pow2(len) <= n && s < Pow2(len) - 1 && r < Pow2(len)
  }

  /** The architecture's mask is the pattern of its decoded shape. */
  lemma DecodedPattern(immN: nat, imms: nat, immr: nat, n: nat)
    requires immN < 2 && imms < 64 && immr < 64
    ensures var len := HighestSetBit(64 * immN + (63 - imms));
      var masks := DecodeBitMasks(immN, imms, immr, true, n);
      && (masks.Some? <==> len >= 1 && Pow2(len) <= n && imms % Pow2(len) != Pow2(len) - 1)
      && (masks.Some? ==> masks.value.0 == Pattern(Pow2(len), imms % Pow2(len), immr % Pow2(len), n))
  {
    hide HighestSetBit, Pow2, Shift, Pattern, Phase;
    var len := HighestSetBit(64 * immN + (63 - imms));
    var masks := DecodeBitMasks(immN, imms, immr, true, n);
    if masks.Some? {
      var size := Pow2(len);
      ReplicatedElement(imms % size, immr % size, size, n);
    }
  }

  lemma ReplicatedElement(s: nat, r: nat, size: nat, n: nat)
    requires s < size && r < size
    ensures Replicate(Shift(ROR, Ones(s + 1) + Zeros(size - s - 1), r), n) == Pattern(size, s, r, n)
  {
    var e := Shift(ROR, Element(s, size), r);
    forall i | 0 <= i < n ensures Replicate(e, n)[i] == Pattern(size, s, r, n)[i] {
      PhaseOfResidue(i, r, size);
      RotatedBit(s, r, size, i % size);
    }
  }

  lemma RotatedBit(s: nat, r: nat, size: nat, j: nat)
    requires s < size && r < size && j < size
    ensures Shift(ROR, Element(s, size), r)[j] <==> Around(j, r, size) <= s
  {
    hide Element;
    ElementBit(s, size, Around(j, r, size));
  }

  // ---------- The computation ----------

  /** The rotated element, built from two shifts. */
  method BuildElement(s: nat, r: nat, size: nat) returns (element: Word)
    requires r < size <= 64 && s < size - 1
    ensures forall i :: 0 <= i < 64 ==> (element[i] <==> i < size && Phase(i, r, size) <= s)
  {
    element := LowOnes(s + 1);
    if r != 0 {
      element := Or(Shift(LSR, element, r), Shift(LSL, element, size - r));
    }
    if size < 64 {
      element := And(element, LowOnes(size));
    }
    forall i | 0 <= i < 64 ensures element[i] <==> i < size && Phase(i, r, size) <= s {
      if i < size {
        ModUnique(i, size, 0, i);
        PhaseOfResidue(i, r, size);
      }
    }
  }

  /** The position of the highest set bit, found by shifting. */
  method Length(start: nat) returns (len: nat)
    ensures len == if start == 0 then 0 else HighestSetBit(start)
  {
    var tag := start;
    len := 0;
    while tag > 1
      invariant start == 0 ==> tag == 0 && len == 0
      invariant start > 0 ==> tag > 0 && len + HighestSetBit(tag) == HighestSetBit(start)
    {
      tag := tag / 2;
      len := len + 1;
    }
    assert tag == 1 ==> HighestSetBit(1) == 1 + HighestSetBit(0);
  }

  /** One more copy of the element fills one more element's worth of bits. */
  lemma FillStep(mask: Word, element: Word, size: nat, k: nat, i: nat)
    requires size > 0 && i < 64 && k * size < 64
    requires mask[i] <==> i < k * size && element[i % size]
    requires forall j :: size <= j < 64 ==> !element[j]
    ensures Or(mask, Shift(LSL, element, k * size))[i] <==> i < k * size + size && element[i % size]
  {
    var at := k * size;
    if at <= i < at + size {
      ModUnique(i, size, k, i - at);
    }
    assert Shift(LSL, element, at)[i] <==> i >= at && element[i - at];
  }

  /** OR-ing shifted copies of an element fills the width with it. */
  method Fill(element: Word, size: nat, copies: nat, width: nat) returns (mask: Word)
    requires 0 < size && width == copies * size <= 64
    requires forall i :: size <= i < 64 ==> !element[i]
    ensures forall i :: 0 <= i < 64 ==> (mask[i] <==> i < width && element[i % size])
  {
    mask := Zeros(64);
    var at := 0;
    ghost var k := 0;
    while at < width
      invariant at == k * size && 0 <= at <= width && 0 <= k
      invariant forall i :: 0 <= i < 64 ==> (mask[i] <==> i < at && element[i % size])
      decreases width - at
    {
      MulOrder(k, copies, size);
      MulOrder(k + 1, copies, size);
      Distribute(k, 1, size);
      forall i | 0 <= i < 64 ensures Or(mask, Shift(LSL, element, at))[i] <==> i < at + size && element[i % size] {
        FillStep(mask, element, size, k, i);
      }
      mask := Or(mask, Shift(LSL, element, at));
      at := at + size;
      k := k + 1;
    }
  }

  lemma SizesDivide(len: nat, wide: bool)
    requires Pow2(len) <= Width(wide)
    ensures len <= (if wide then 6 else 5)
    ensures Width(wide) == Pow2((if wide then 6 else 5) - len) * Pow2(len)
  {
    FivePowers();
    var top := if wide then 6 else 5;
    if len > top {
      Pow2Next(top);
      Pow2Monotonic(top + 1, len);
    } else {
      Pow2Add(top - len, len);
    }
  }

  /** The translator's mask is the architecture's, and it accepts exactly the defined encodings. */
  method ComputeMask(w: bv32) returns (mask: Option<Word>)
    ensures mask == MaskValue(w)
  {
    hide Field;
    var wide := Flag(w, 31);
    var width := Width(wide);
    var n, s, r := BitOf(w, 22), Six(w, 10), Six(w, 16);
    if width == 32 && n == 1 {
      return None;
    }
    var len := Length(64 * n + (63 - s));
    DecodedPattern(n, s, r, width);
    if len < 1 {
      return None;
    }
    var size := Pow2(len);
    if size > width || s % size == size - 1 {
      return None;
    }
    mask := ComputeFilled(wide, len, s % size, r % size);
  }

  method ComputeFilled(wide: bool, len: nat, s: nat, r: nat) returns (mask: Option<Word>)
    requires Pow2(len) <= Width(wide) && s < Pow2(len) - 1 && r < Pow2(len)
    ensures mask == Some(Extend(Pattern(Pow2(len), s, r, Width(wide)), 64))
  {
    hide Pow2;
    var width, size := Width(wide), Pow2(len);
    SizesDivide(len, wide);
    var element := BuildElement(s, r, size);
    var m := Fill(element, size, Pow2((if wide then 6 else 5) - len), width);
    ghost var e := Extend(Pattern(size, s, r, width), 64);
    forall i | 0 <= i < 64 ensures m[i] == e[i] {
      PhaseOfResidue(i, r, size);
      ModUnique(i % size, size, 0, i % size);
      PhaseOfResidue(i % size, r, size);
    }
    assert m == e;
    mask := Some(m);
  }

  // ---------- What the masks are ----------

  lemma PatternPeriod(size: nat, s: nat, r: nat, n: nat, i: nat)
    requires size > 0 && i + size < n
    ensures Pattern(size, s, r, n)[i + size] == Pattern(size, s, r, n)[i]
  {
    PhaseShift(i, 1, r, size);
  }

  /** Position size - r starts the run of ones; the position before it is a zero. */
  lemma PhaseZero(r: nat, size: nat) returns (i: nat)
    requires r < size
    ensures i < size && Phase(i, r, size) == 0
  {
    i := if r == 0 then 0 else size - r;
    ModUnique(i + r, size, if r == 0 then 0 else 1, 0);
  }

  lemma PhaseLast(r: nat, size: nat) returns (i: nat)
    requires r < size
    ensures i < size && Phase(i, r, size) == size - 1
  {
    i := size - 1 - r;
    ModUnique(i + r, size, 0, size - 1);
  }

  /** A mask repeats with its element size and is neither all zeros nor all ones. */
  lemma MaskShape(w: bv32, mask: Word)
    requires MaskValue(w) == Some(mask)
    ensures var wide := Flag(w, 31);
      var n := Width(wide);
      var len := HighestSetBit(64 * BitOf(w, 22) + (63 - Six(w, 10)));
      && ValidShape(len, Six(w, 10) % Pow2(len), Six(w, 16) % Pow2(len), n)
      && (forall i :: 0 <= i < 64 ==>
            (mask[i] <==> i < n && Phase(i, Six(w, 16) % Pow2(len), Pow2(len)) <= Six(w, 10) % Pow2(len)))
      && (forall i :: 0 <= i < n - Pow2(len) ==> mask[i + Pow2(len)] == mask[i])
      && !IsZero(mask) && (exists i :: 0 <= i < n && !mask[i])
  {
    hide Field, DecodeBitMasks, HighestSetBit, Phase, Pow2;
    var wide := Flag(w, 31);
    var n := Width(wide);
    var len := HighestSetBit(64 * BitOf(w, 22) + (63 - Six(w, 10)));
    DecodedPattern(BitOf(w, 22), Six(w, 10), Six(w, 16), n);
    SizesDivide(len, wide);
    var size := Pow2(len);
    var s, r := Six(w, 10) % size, Six(w, 16) % size;
    assert mask == Extend(Pattern(size, s, r, n), 64);
    forall i | 0 <= i < n - size ensures mask[i + size] == mask[i] {
      PatternPeriod(size, s, r, n, i);
    }
    var one := PhaseZero(r, size);
    assert mask[one];
    var zero := PhaseLast(r, size);
    assert !mask[zero];
  }

  /** An encoding of a shape: N, imms and immr. */
  function Encoding(len: nat, s: nat, r: nat): (f: (nat, nat, nat))
    requires ValidShape(len, s, r, 64)
  {
    SmallPowers(len);
    if len == 6 then (1, s, r) else (0, 64 - 2 * Pow2(len) + s, r)
  }

  lemma SmallPowers(len: nat)
    requires 1 <= len <= 6
    ensures Pow2(len) == match len case 1 => 2 case 2 => 4 case 3 => 8 case 4 => 16 case 5 => 32 case _ => 64
    ensures Pow2(len + 1) == 2 * Pow2(len)
  {
    FivePowers();
  }

  /** Every valid shape has an encoding, and the encoding decodes to it. */
  lemma EveryPatternEncoded(len: nat, s: nat, r: nat, n: nat)
    requires ValidShape(len, s, r, n) && n <= 64
    ensures var (immN, imms, immr) := Encoding(len, s, r);
      && immN < 2 && imms < 64 && immr < 64
      && var masks := DecodeBitMasks(immN, imms, immr, true, n);
         masks.Some? && masks.value.0 == Pattern(Pow2(len), s, r, n)
  {
    hide DecodeBitMasks, HighestSetBit, Pattern;
    SmallPowers(len);
    var size := Pow2(len);
    var (immN, imms, immr) := Encoding(len, s, r);
    if len == 6 {
      ModUnique(imms, size, 0, s);
    } else {
      assert 64 - 2 * size == size * (if len == 1 then 30 else if len == 2 then 14 else if len == 3 then 6 else if len == 4 then 2 else 0);
      ModUnique(imms, size, if len == 1 then 30 else if len == 2 then 14 else if len == 3 then 6 else if len == 4 then 2 else 0, s);
    }
    ModUnique(immr, size, 0, r);
    HighestBit(64 * immN + (63 - imms), len);
    DecodedPattern(immN, imms, immr, n);
  }

  /** A one whose cyclic predecessor is a zero. */
  predicate Rises(m: Bits, i: nat)
    requires i < |m|
  {
    m[i] && !m[if i == 0 then |m| - 1 else i - 1]
  }

  /** In a pattern that divides its width, runs start exactly at phase zero. */
  lemma PatternRises(size: nat, s: nat, r: nat, copies: nat, i: nat)
    requires s < size - 1 && r < size && copies > 0 && i < copies * size
    ensures Rises(Pattern(size, s, r, copies * size), i) <==> Phase(i, r, size) == 0
  {
    hide Phase;
    var n := copies * size;
    var before := if i == 0 then n - 1 else i - 1;
    if i == 0 {
      PhaseShift(0, copies, r, size);
      PhaseStep(n - 1, r, size);
    } else {
      PhaseStep(i - 1, r, size);
    }
  }

  /** Both phases of one position are zero, and so is the phase one element later. */
  lemma SizesEqual(a: nat, ra: nat, b: nat, rb: nat, i: nat)
    requires ra < a && rb < b && a <= b
    requires Phase(i, ra, a) == 0 && Phase(i, rb, b) == 0 && Phase(i + a, rb, b) == 0
    ensures a == b
  {
    if a < b {
      var q := (i + rb) / b;
      assert i + rb == b * q;
      ModUnique(i + a + rb, b, q, a);
    }
  }

  lemma SameSizeSameRotation(a: nat, ra: nat, rb: nat, i: nat)
    requires ra < a && rb < a && Phase(i, ra, a) == 0 && Phase(i, rb, a) == 0
    ensures ra == rb
  {
    if ra < rb {
      ModUnique(i + rb, a, (i + ra) / a, rb - ra);
    } else {
      ModUnique(i + ra, a, (i + rb) / a, ra - rb);
    }
  }

  /** A position of any phase, within the first element. */
  lemma PhaseReached(r: nat, size: nat, p: nat) returns (i: nat)
    requires r < size && p < size
    ensures i < size && Phase(i, r, size) == p
  {
    i := if p >= r then p - r else p + size - r;
    ModUnique(i + r, size, if p >= r then 0 else 1, p);
  }

  /** Equal patterns of one element size have runs of the same length. */
  lemma SameRun(size: nat, s: nat, t: nat, r: nat, n: nat)
    requires s < size - 1 && t < size - 1 && r < size <= n && Pattern(size, s, r, n) == Pattern(size, t, r, n)
    ensures s == t
  {
    hide Phase;
    var i := PhaseReached(r, size, if s < t then t else s);
    assert Pattern(size, s, r, n)[i] == Pattern(size, t, r, n)[i];
  }

  lemma CopiesOf(len: nat, wide: bool) returns (copies: nat)
    requires 1 <= len && Pow2(len) <= Width(wide)
    ensures copies > 0 && Width(wide) == copies * Pow2(len)
  {
    SizesDivide(len, wide);
    copies := Pow2((if wide then 6 else 5) - len);
  }

  /** Patterns with ordered sizes that coincide have the same size and rotation. */
  lemma SameElement(la: nat, sa: nat, ra: nat, lb: nat, sb: nat, rb: nat, wide: bool)
    requires ValidShape(la, sa, ra, Width(wide)) && ValidShape(lb, sb, rb, Width(wide)) && Pow2(la) <= Pow2(lb)
    requires Pattern(Pow2(la), sa, ra, Width(wide)) == Pattern(Pow2(lb), sb, rb, Width(wide))
    ensures Pow2(la) == Pow2(lb) && ra == rb
  {
    hide Pow2, Phase, Pattern, Rises;
    var n := Width(wide);
    var a, b := Pow2(la), Pow2(lb);
    var ca := CopiesOf(la, wide);
    var cb := CopiesOf(lb, wide);
    var i := PhaseZero(rb, b);
    PatternRises(b, sb, rb, cb, i);
    PatternRises(a, sa, ra, ca, i);
    if a < b {
      PhaseShift(i, 1, ra, a);
      NextRunInside(a, sa, ra, ca, b, sb, rb, cb, i);
      PatternRises(a, sa, ra, ca, i + a);
      PatternRises(b, sb, rb, cb, i + a);
      SizesEqual(a, ra, b, rb, i);
    }
    SameSizeSameRotation(a, ra, rb, i);
  }

  /** No two phase-zero positions are closer than an element. */
  lemma PhaseGap(j: nat, a: nat, r: nat, size: nat)
    requires 0 < a < size && Phase(j, r, size) == 0
    ensures Phase(j + a, r, size) != 0
  {
    var q := (j + r) / size;
    assert j + r == size * q;
    ModUnique(j + a + r, size, q, a);
  }

  /** The first run of the wider element leaves room for the next run of the narrower one. */
  lemma NextRunInside(a: nat, sa: nat, ra: nat, ca: nat, b: nat, sb: nat, rb: nat, cb: nat, i: nat)
    requires sa < a - 1 && ra < a && sb < b - 1 && rb < b && ca > 0 && cb > 0 && ca * a == cb * b && a < b
    requires Pattern(a, sa, ra, ca * a) == Pattern(b, sb, rb, cb * b)
    requires i < b && Phase(i, ra, a) == 0 && Phase(i, rb, b) == 0
    ensures i + a < ca * a
  {
    hide Phase, Pattern, Rises;
    MulOrder(1, cb, b);
    if i + a >= ca * a {
      var j := i - a;
      PhaseShift(j, 1, ra, a);
      PatternRises(a, sa, ra, ca, j);
      PatternRises(b, sb, rb, cb, j);
      PhaseGap(j, a, rb, b);
      assert false;
    }
  }

  lemma Pow2Strict(a: nat, b: nat)
    requires a < b
    ensures Pow2(a) < Pow2(b)
  {
    Pow2Next(a);
    Pow2Monotonic(a + 1, b);
  }

  lemma SameExponent(a: nat, b: nat)
    requires Pow2(a) == Pow2(b)
    ensures a == b
  {
    hide Pow2;
    if a < b {
      Pow2Strict(a, b);
    } else if b < a {
      Pow2Strict(b, a);
    }
  }

  /** Distinct shapes give distinct masks. */
  lemma MasksDistinct(la: nat, sa: nat, ra: nat, lb: nat, sb: nat, rb: nat, wide: bool)
    requires ValidShape(la, sa, ra, Width(wide)) && ValidShape(lb, sb, rb, Width(wide))
    requires Pattern(Pow2(la), sa, ra, Width(wide)) == Pattern(Pow2(lb), sb, rb, Width(wide))
    ensures la == lb && sa == sb && ra == rb
  {
    hide Pow2, Phase, Pattern;
    if Pow2(la) <= Pow2(lb) {
      SameElement(la, sa, ra, lb, sb, rb, wide);
    } else {
      SameElement(lb, sb, rb, la, sa, ra, wide);
    }
    SameRun(Pow2(la), sa, sb, ra, Width(wide));
    SameExponent(la, lb);
  }
}
