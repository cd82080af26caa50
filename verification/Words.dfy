/**
 * Machine words as sequences of bits, least significant bit first.
 * Logic, shifts and masks are read off bit by bit; arithmetic goes through the value.
 */
module Words {
  import opened PowersOfTwo

  type Bits = seq<bool>

  type Word = s: Bits | |s| == 64 witness Zeros(64)

  datatype ShiftKind = LSL | LSR | ASR | ROR

  function Zeros(n: nat): (s: Bits)
    ensures |s| == n
  {
    seq(n, i => false)
  }

  function Ones(n: nat): (s: Bits)
    ensures |s| == n
  {
    seq(n, i => true)
  }

  function Not(x: Bits): (z: Bits)
    ensures |z| == |x|
  {
    seq(|x|, i requires 0 <= i < |x| => !x[i])
  }

  function And(x: Bits, y: Bits): (z: Bits)
    requires |x| == |y|
    ensures |z| == |x|
  {
    seq(|x|, i requires 0 <= i < |x| => x[i] && y[i])
  }

  function Or(x: Bits, y: Bits): (z: Bits)
    requires |x| == |y|
    ensures |z| == |x|
  {
    seq(|x|, i requires 0 <= i < |x| => x[i] || y[i])
  }

  function Xor(x: Bits, y: Bits): (z: Bits)
    requires |x| == |y|
    ensures |z| == |x|
  {
    seq(|x|, i requires 0 <= i < |x| => x[i] != y[i])
  }

  /** One of the four A64 shifts; the amount is below the width, as both machines require. */
  function Shift(kind: ShiftKind, x: Bits, amount: nat): (z: Bits)
    requires amount < |x|
    ensures |z| == |x|
  {
    var n := |x|;
    match kind
    case LSL => seq(n, i requires 0 <= i < n => i >= amount && x[i - amount])
    case LSR => seq(n, i requires 0 <= i < n => i + amount < n && x[i + amount])
    case ASR => seq(n, i requires 0 <= i < n => if i + amount < n then x[i + amount] else x[n - 1])
    case ROR => seq(n, i requires 0 <= i < n => x[if i + amount < n then i + amount else i + amount - n])
  }

  /** The low n bits. */
  function Low(x: Bits, n: nat): (z: Bits)
    requires n <= |x|
    ensures |z| == n
  {
    x[..n]
  }

  /** Zero extension to n bits. */
  function Extend(x: Bits, n: nat): (z: Bits)
    requires |x| <= n
    ensures |z| == n
  {
    seq(n, i requires 0 <= i < n => i < |x| && x[i])
  }

  function Msb(x: Bits): (b: bool)
    requires |x| > 0
  {
    x[|x| - 1]
  }

  predicate IsZero(x: Bits)
  {
    forall i :: 0 <= i < |x| ==> !x[i]
  }

  /** The unsigned value. */
  function Val(x: Bits): (n: nat)
  {
    if x == [] then 0 else (if x[0] then 1 else 0) + 2 * Val(x[1..])
  }

  /** The signed value, in two's complement. */
  function SVal(x: Bits): (v: int)
    requires |x| > 0
  {
    if Msb(x) then Val(x) - Pow2(|x|) else Val(x)
  }

  /** The low n bits of a number, as a word. */
  function FromNat(v: nat, n: nat): (x: Bits)
    ensures |x| == n
  {
    if n == 0 then [] else [v % 2 == 1] + FromNat(v / 2, n - 1)
  }

  /** The low n bits of the two's complement form of an integer. */
  function FromInt(v: int, n: nat): (x: Bits)
    ensures |x| == n
  {
    FromNat(v % Pow2(n), n)
  }

  lemma {:induction false} ValBound(x: Bits)
    ensures Val(x) < Pow2(|x|)
  {
    if x != [] {
      ValBound(x[1..]);
    }
  }

  lemma {:induction false} ValFromNat(v: nat, n: nat)
    ensures Val(FromNat(v, n)) == v % Pow2(n)
  {
    if n > 0 {
      var x := FromNat(v, n);
      assert x[1..] == FromNat(v / 2, n - 1);
      ValFromNat(v / 2, n - 1);
      ModHalf(v, Pow2(n - 1));
    }
  }

  /** Halving commutes with reduction: v mod 2p is v mod 2 plus twice (v / 2) mod p. */
  lemma ModHalf(v: nat, p: nat)
    requires p > 0
    ensures v % (2 * p) == v % 2 + 2 * ((v / 2) % p)
  {
    var q := v / 2 / p;
    var r := v / 2 % p;
    assert v / 2 == q * p + r;
    assert v == 2 * p * q + (v % 2 + 2 * r) by {
      MulAssoc(2, p, q);
      assert q * p == p * q;
    }
    ModUnique(v, 2 * p, q, v % 2 + 2 * r);
  }

  /** A quotient and remainder in range are the quotient and the remainder. */
  lemma ModUnique(v: int, m: int, q: int, r: int)
    requires m > 0 && 0 <= r < m && v == m * q + r
    ensures v % m == r && v / m == q
  {
    var q', r' := v / m, v % m;
    assert v == m * q' + r';
    if q != q' {
      assert m * q - m * q' == m * (q - q');
      if q > q' {
        MulOrder(1, q - q', m);
      } else {
        MulOrder(q - q', -1, m);
      }
    }
  }

  /** A whole multiple of the modulus does not change the residue. */
  lemma ModShift(a: int, k: int, m: int)
    requires m > 0
    ensures (a + k * m) % m == a % m
  {
    Distribute(a / m, k, m);
    assert m * (a / m) == (a / m) * m;
    assert (a / m + k) * m == m * (a / m + k);
    ModUnique(a + k * m, m, a / m + k, a % m);
  }

  /** Dividing twice is dividing by the product. */
  lemma DividedTwice(v: nat, a: nat, b: nat)
    requires a > 0 && b > 0
    ensures a * b > 0 && v / a / b == v / (a * b)
  {
    var q, p, s := v / a, v / a / b, v / a % b;
    MulOrder(0, b, a);
    MulOrder(s + 1, b, a);
    Recombined(v, a, b, q, p, s);
    ModUnique(v, a * b, p, s * a + v % a);
  }

  lemma Recombined(v: nat, a: nat, b: nat, q: nat, p: nat, s: nat)
    requires a > 0 && b > 0 && q == v / a && q == b * p + s
    ensures v == (a * b) * p + (s * a + v % a)
    ensures (s + 1) * a == s * a + a
  {
    assert v == a * q + v % a;
    Distribute(b * p, s, a);
    MulAssoc(a, b, p);
    assert a * q == q * a && (b * p) * a == a * (b * p);
    Distribute(s, 1, a);
  }

  lemma {:induction false} FromNatVal(x: Bits)
    ensures FromNat(Val(x), |x|) == x
  {
    if x != [] {
      var v := Val(x);
      assert v / 2 == Val(x[1..]) && (v % 2 == 1 <==> x[0]);
      FromNatVal(x[1..]);
    }
  }

  /** The low part of a number's word is the word of that number. */
  lemma {:induction false} LowFromNat(v: nat, m: nat, n: nat)
    requires n <= m
    ensures Low(FromNat(v, m), n) == FromNat(v, n)
  {
    if n > 0 {
      LowFromNat(v / 2, m - 1, n - 1);
      assert Low(FromNat(v, m), n) == [v % 2 == 1] + Low(FromNat(v / 2, m - 1), n - 1);
    }
  }

  /** Words of the same width with the same value are the same word. */
  lemma ValInjective(x: Bits, y: Bits)
    requires |x| == |y| && Val(x) == Val(y)
    ensures x == y
  {
    FromNatVal(x);
    FromNatVal(y);
  }

  /** The complement of a word, which A64 adds in order to subtract. */
  lemma {:induction false} ValNot(x: Bits)
    ensures Val(Not(x)) == Pow2(|x|) - 1 - Val(x)
  {
    if x != [] {
      assert Not(x)[1..] == Not(x[1..]);
      ValNot(x[1..]);
    }
  }

  /** The value of a word is made of the values of its parts. */
  lemma {:induction false} ValAppend(a: Bits, b: Bits)
    ensures Val(a + b) == Val(a) + Pow2(|a|) * Val(b)
  {
    if a == [] {
      assert a + b == b;
    } else {
      assert (a + b)[1..] == a[1..] + b;
      ValAppend(a[1..], b);
      MulAssoc(2, Pow2(|a| - 1), Val(b));
    }
  }

  lemma {:induction false} ValMsb(x: Bits)
    requires |x| > 0
    ensures Msb(x) <==> Val(x) >= Pow2(|x| - 1)
  {
    if |x| > 1 {
      ValMsb(x[1..]);
    } else {
      assert Val(x[1..]) == 0;
    }
  }

  lemma {:induction false} ValZero(x: Bits)
    ensures IsZero(x) <==> Val(x) == 0
  {
    if x != [] {
      ValZero(x[1..]);
      if IsZero(x[1..]) && !x[0] {
        forall i | 0 <= i < |x| ensures !x[i] {
          if i > 0 {
            assert x[i] == x[1..][i - 1];
          }
        }
      }
      if IsZero(x) {
        forall i | 0 <= i < |x[1..]| ensures !x[1..][i] {
          assert x[1..][i] == x[i + 1];
        }
      }
    }
  }

  lemma {:induction false} ValLow(x: Bits, n: nat)
    requires n <= |x|
    ensures Val(Low(x, n)) == Val(x) % Pow2(n)
  {
    if n > 0 {
      assert Low(x, n)[1..] == Low(x[1..], n - 1);
      ValLow(x[1..], n - 1);
      ModHalf(Val(x), Pow2(n - 1));
    }
  }

  /** Zero extension keeps the value, and the low part of an extension is the word itself. */
  lemma {:induction false} ValExtend(x: Bits, n: nat)
    requires |x| <= n
    ensures Val(Extend(x, n)) == Val(x)
    ensures Low(Extend(x, n), |x|) == x
  {
    var z := Extend(x, n);
    assert Low(z, |x|) == x;
    if n > 0 {
      if x == [] {
        ValZero(z);
      } else {
        assert z[1..] == Extend(x[1..], n - 1);
        ValExtend(x[1..], n - 1);
      }
    }
  }

  lemma LowExtend(x: Bits, n: nat)
    requires |x| <= n
    ensures Low(Extend(x, n), |x|) == x
  {
    assert Low(Extend(x, n), |x|) == x;
  }

  lemma ExtendFull(x: Bits)
    ensures Extend(x, |x|) == x
    ensures Low(x, |x|) == x
  {
    assert Extend(x, |x|) == x;
    assert Low(x, |x|) == x;
  }
}
