/**
 What the three rounding bits of a significand still say about an exact value after bits below them
 were discarded: the relations that shift_jam establishes and keeps.
 */
module Jamming {
  import opened Basics
  import opened PowersOfTwo
  import opened Binary32

  /* ---------- What a jammed significand says about the exact value ---------- */

  /** Divide, keeping the remainder as a one in the lowest bit. */
  function Jam(value: u64, p: nat): (v: u64)
    requires p > 1
  {
    DivisionParts(value, p);
    if value % p != 0 && (value / p) % 2 == 0 then value / p + 1 else value / p
  }

  /** Shift right, keeping every discarded one in the lowest bit. */
  function ShiftJam(value: u64, distance: nat): (v: u64)
  {
    if distance == 0 then value
    else if distance >= 64 then (if value != 0 then 1 else 0)
    else assert Pow2(distance) == 2 * Pow2(distance - 1); Jam(value, Pow2(distance))
  }

  lemma DivisionParts(s: nat, p: nat)
    requires p > 0
    ensures s == (s / p) * p + s % p && s % p < p
    ensures s / p <= s
    ensures p > 1 && s % p != 0 ==> s / p < s
  {
    MulOrder(1, p, s / p + 1);
  }

  /** s stands for N / D: exact, or odd and within one unit. */
  predicate Jams(s: nat, N: nat, D: nat)
  {
    D > 0 && (N == s * D || (s % 2 == 1 && (s - 1) * D < N < (s + 1) * D))
  }

  function Floor4(s: nat): (n: nat) { s - s % 4 }

  /** s stands for N / D: every multiple of four lies on the same side of both. */
  predicate Brackets(s: nat, N: nat, D: nat)
  {
    && D > 0
    && (s == Floor4(s) ==> N == s * D)
    && (s != Floor4(s) ==> Floor4(s) * D < N < (Floor4(s) + 4) * D)
  }

  lemma BracketCompare(s: nat, N: nat, D: nat, c: nat)
    requires Brackets(s, N, D) && c % 4 == 0
    ensures s < c <==> N < c * D
    ensures s > c <==> N > c * D
  {
    MulOrder(c, Floor4(s), D);
    MulOrder(Floor4(s) + 4, c, D);
  }

  lemma JamBrackets(s: nat, N: nat, D: nat)
    requires Jams(s, N, D)
    ensures Brackets(s, N, D)
  {
    var low := Floor4(s);
    MulOrder(low, s, D);
    MulOrder(s, low + 4, D);
    if s % 2 == 1 {
      MulOrder(low, s - 1, D);
      MulOrder(s + 1, low + 4, D);
    }
  }

  /** The bracketing survives a change of the fraction that keeps its value. */
  lemma BracketCross(s: nat, N: nat, D: nat, M: nat, E: nat)
    requires Brackets(s, N, D) && E > 0 && N * E == M * D
    ensures Brackets(s, M, E)
  {
    CrossOrder(Floor4(s), N, D, M, E);
    CrossOrder(Floor4(s) + 4, N, D, M, E);
  }

  lemma CrossOrder(c: nat, N: nat, D: nat, M: nat, E: nat)
    requires D > 0 && E > 0 && N * E == M * D
    ensures c * D < N <==> c * E < M
    ensures c * D > N <==> c * E > M
    ensures c * D == N <==> c * E == M
  {
    MulOrder(c * D, N, E);
    MulOrder(N, c * D, E);
    MulOrder(c * E, M, D);
    MulOrder(M, c * E, D);
    assert (c * D) * E == (c * E) * D;
  }

  /** r is the quotient of s by p with the remainder jammed into its lowest bit. */
  predicate IsJammed(s: nat, p: nat, q: nat, rem: nat, r: nat)
  {
    && p > 0 && rem < p && s == q * p + rem
    && r == if rem != 0 && q % 2 == 0 then q + 1 else q
  }

  lemma Pow2At64()
    ensures Pow2(64) == 0x1_0000_0000_0000_0000
  {
    assert Pow2(4) == 16;
    Pow2Add(4, 4);
    Pow2Add(8, 8);
    Pow2Add(16, 16);
    Pow2Add(32, 32);
  }

  lemma JamParts(s: u64, p: nat) returns (q: nat, rem: nat)
    requires p > 1
    ensures IsJammed(s, p, q, rem, Jam(s, p))
  {
    DivisionParts(s, p);
    q, rem := s / p, s % p;
  }

  /** Every distance, however large, behaves like one exact division by a power of two. */
  lemma ShiftIsJammed(s: u64, d: nat) returns (q: nat, rem: nat)
    ensures IsJammed(s, Pow2(d), q, rem, ShiftJam(s, d))
  {
    hide Jam;
    if d == 0 {
      q, rem := s, 0;
    } else if d < 64 {
      assert Pow2(d) == 2 * Pow2(d - 1);
      q, rem := JamParts(s, Pow2(d));
    } else {
      Pow2At64();
      Pow2Monotonic(64, d);
      q, rem := 0, s;
    }
  }

  lemma JammedPosition(s: nat, p: nat, q: nat, rem: nat, r: nat, c: nat)
    requires IsJammed(s, p, q, rem, r) && c % 2 == 0
    ensures c < r ==> c * p < s
    ensures c > r ==> c * p > s
    ensures c == r ==> c * p == s
  {
    if c < r {
      MulOrder(c, q, p);
    } else if c > r {
      MulOrder(q + 1, c, p);
      assert (q + 1) * p == q * p + p;
    }
  }

  lemma MultipleOfFour(c: nat, p: nat)
    requires c % 4 == 0
    ensures (c * p) % 4 == 0
  {
    assert c * p == 4 * ((c / 4) * p);
  }

  /** Shifting with jamming keeps the bracketing, so a second shift cannot round twice. */
  lemma ShiftKeepsBrackets(s: u64, d: nat, N: nat, D: nat)
    requires Brackets(s, N, D)
    ensures Brackets(ShiftJam(s, d), N, D * Pow2(d))
  {
    var p, r := Pow2(d), ShiftJam(s, d);
    var q, rem := ShiftIsJammed(s, d);
    JammedBrackets(s, p, q, rem, r, N, D);
  }

  /** A multiple of four at the new scale is ordered like its image at the old one. */
  lemma BracketCompareScaled(s: nat, N: nat, D: nat, p: nat, c: nat)
    requires Brackets(s, N, D) && c % 4 == 0
    ensures s < c * p <==> N < c * (D * p)
    ensures s > c * p <==> N > c * (D * p)
  {
    MultipleOfFour(c, p);
    BracketCompare(s, N, D, c * p);
    Reassociate(c, p, D);
  }

  lemma JammedBrackets(s: nat, p: nat, q: nat, rem: nat, r: nat, N: nat, D: nat)
    requires IsJammed(s, p, q, rem, r) && Brackets(s, N, D)
    ensures Brackets(r, N, D * p)
  {
    var low, high := Floor4(r), Floor4(r) + 4;
    JammedPosition(s, p, q, rem, r, low);
    JammedPosition(s, p, q, rem, r, high);
    BracketCompareScaled(s, N, D, p, low);
    BracketCompareScaled(s, N, D, p, high);
    MulOrder(0, D, p);
  }

  lemma Reassociate(c: int, p: int, D: int)
    ensures (c * p) * D == c * (D * p)
  {
  }

  /** Jamming an exact significand leaves it exact, or odd and within one unit. */
  lemma ShiftJamsExact(s: u64, d: nat, D: nat)
    requires D > 0
    ensures Jams(ShiftJam(s, d), s * D, D * Pow2(d))
  {
    var p, r := Pow2(d), ShiftJam(s, d);
    var q, rem := ShiftIsJammed(s, d);
    JammedJams(s, p, q, rem, r, D);
  }

  lemma JammedJams(s: nat, p: nat, q: nat, rem: nat, r: nat, D: nat)
    requires IsJammed(s, p, q, rem, r) && D > 0
    ensures Jams(r, s * D, D * p)
  {
    MulOrder(0, D, p);
    if r % 2 == 0 {
      JammedPosition(s, p, q, rem, r, r);
      Reassociate(r, p, D);
    } else {
      JammedPosition(s, p, q, rem, r, r - 1);
      JammedPosition(s, p, q, rem, r, r + 1);
      Reassociate(r - 1, p, D);
      Reassociate(r + 1, p, D);
      MulOrder((r - 1) * p, s, D);
      MulOrder(s, (r + 1) * p, D);
    }
  }
}
