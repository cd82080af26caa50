/**
 * Where the two machines' arithmetic meets: the host's carry, overflow and products against
 * the architecture's AddWithCarry and unsigned products.
 */
module FlagBridge {
  import opened PowersOfTwo
  import opened Words
  import A64
  import opened HostOps

  /** A number already in range is its own residue; one modulus too much is taken off. */
  lemma WrapOnce(v: nat, m: nat)
    requires m > 0 && v < 2 * m
    ensures v % m == if v < m then v else v - m
  {
    ModUnique(v, m, if v < m then 0 else 1, if v < m then v else v - m);
  }

  function Centre(v: int, h: int): (n: int)
  {
    if v >= h then v - 2 * h else v
  }

  /** Unsigned carry and signed overflow of a sum, on plain numbers; h is half the modulus. */
  lemma SumOverflow(x: nat, y: nat, c: nat, h: nat)
    requires x < 2 * h && y < 2 * h && c <= 1
    ensures var total := x + y + c;
      var s := if total < 2 * h then total else total - 2 * h;
      var signed := Centre(x, h) + Centre(y, h) + c;
      (Centre(s, h) != signed <==> !(signed + h >= 0 && signed < h))
  {
  }

  lemma SValCentre(x: Bits)
    requires |x| > 0
    ensures SVal(x) == Centre(Val(x), Pow2(|x| - 1))
    ensures Pow2(|x|) == 2 * Pow2(|x| - 1)
    ensures Val(x) < Pow2(|x|)
  {
    ValBound(x);
    ValMsb(x);
    Pow2Next(|x| - 1);
  }

  /** The wrapped sum, its carry and its signed overflow. */
  lemma SumFlags(a: Bits, b: Bits, carry: bool)
    requires |a| == |b| > 0
    ensures var c := if carry then 1 else 0;
      var total := Val(a) + Val(b) + c;
      var (sum, f) := A64.AddWithCarry(a, b, carry);
      && Val(sum) == total % Pow2(|a|)
      && (f.c <==> total >= Pow2(|a|))
      && (f.v <==> !InSignedRange(SVal(a) + SVal(b) + c, |a|))
  {
    hide FromNat, Val, SVal, Centre, Pow2;
    var n := |a|;
    var c := if carry then 1 else 0;
    var total := Val(a) + Val(b) + c;
    var (sum, f) := A64.AddWithCarry(a, b, carry);
    SValCentre(a);
    SValCentre(b);
    SValCentre(sum);
    ValFromNat(total, n);
    WrapOnce(total, Pow2(n));
    SumOverflow(Val(a), Val(b), c, Pow2(n - 1));
  }

  lemma SValNot(b: Bits)
    requires |b| > 0
    ensures SVal(Not(b)) == -1 - SVal(b)
  {
    hide Val;
    ValNot(b);
    assert Msb(Not(b)) == !Msb(b);
  }

  /** Addition: host and architecture agree on the result and on every flag. */
  lemma AddAgrees(a: Bits, b: Bits)
    requires |a| == |b| > 0
    ensures var host := Arithmetic(Add, a, b);
      var (sum, f) := A64.AddWithCarry(a, b, false);
      host == (sum, Known(f.c, f.z, f.n, f.v))
  {
    var (sum, f) := A64.AddWithCarry(a, b, false);
    SumFlags(a, b, false);
    ValFromNat(Val(a) + Val(b), |a|);
    ValFromNat((Val(a) + Val(b)) % Pow2(|a|), |a|);
    ModUnique((Val(a) + Val(b)) % Pow2(|a|), Pow2(|a|), 0, (Val(a) + Val(b)) % Pow2(|a|));
    ValInjective(sum, FromInt(Val(a) + Val(b), |a|));
  }

  /** Subtraction: the architecture's carry is the inverse of the host's borrow. */
  lemma SubAgrees(a: Bits, b: Bits)
    requires |a| == |b| > 0
    ensures var host := Arithmetic(Sub, a, b);
      var (sum, f) := A64.AddWithCarry(a, Not(b), true);
      host == (sum, Known(!f.c, f.z, f.n, f.v))
  {
    var n := |a|;
    var m := Pow2(n);
    var (sum, f) := A64.AddWithCarry(a, Not(b), true);
    hide FromNat, Val;
    SumFlags(a, Not(b), true);
    ValNot(b);
    SValNot(b);
    ValBound(a);
    ValBound(b);
    var d := Val(a) - Val(b);
    assert Val(a) + Val(Not(b)) + 1 == d + m;
    WrapOnce(d + m, m);
    ModUnique(d, m, if d < 0 then -1 else 0, if d < 0 then d + m else d);
    assert (d + m) % m == d % m;
    ValFromNat(d % m, n);
    ModUnique(d % m, m, 0, d % m);
    ValInjective(sum, FromInt(d, n));
  }

  /** Replacing a factor by one of the same residue keeps the residue of the product. */
  lemma FactorShift(x: int, i: int, y: int, m: int)
    requires m > 0
    ensures ((x + i * m) * y) % m == (x * y) % m
  {
    Distribute(x, i * m, y);
    assert i * m * y == (i * y) * m;
    ModShift(x * y, i * y, m);
  }

  lemma ShiftedProduct(x: int, y: int, i: int, j: int, m: int)
    requires m > 0
    ensures ((x + i * m) * (y + j * m)) % m == (x * y) % m
  {
    FactorShift(x, i, y + j * m, m);
    FactorShift(y, j, x, m);
    assert x * (y + j * m) == (y + j * m) * x && y * x == x * y;
  }

  /** The low half of a signed product is the low half of the unsigned product. */
  lemma ProductAgrees(a: Bits, b: Bits)
    requires |a| == |b| > 0
    ensures (SVal(a) * SVal(b)) % Pow2(|a|) == (Val(a) * Val(b)) % Pow2(|a|)
  {
    hide Val, Pow2;
    ShiftedProduct(Val(a), Val(b), if Msb(a) then -1 else 0, if Msb(b) then -1 else 0, Pow2(|a|));
  }
}
