/** Little-endian byte sequences, shared by the memory services and the device images. */
module LittleEndian {
  import opened Basics

  function Pow256(n: nat): (p: nat)
    ensures p > 0
  {
    if n == 0 then 1 else 256 * Pow256(n - 1)
  }

  /** Byte i of v: i right shifts by eight bits, then truncation. */
  function ByteAt(v: nat, i: nat): (n: u8)
  {
    if i == 0 then v % 256 else ByteAt(v / 256, i - 1)
  }

  function Encode(v: nat, n: nat): (s: seq<u8>)
    ensures |s| == n
  {
    seq(n, i requires 0 <= i => ByteAt(v, i))
  }

  function Assemble(s: seq<u8>): (n: nat)
  {
    if s == [] then 0 else s[0] + 256 * Assemble(s[1..])
  }

  /** Every value that fits in n bytes is recovered from its encoding. */
  lemma {:induction false} AssembleEncode(v: nat, n: nat)
    requires v < Pow256(n)
    ensures Assemble(Encode(v, n)) == v
  {
    if n > 0 {
      var s := Encode(v, n);
      assert s[0] == v % 256;
      assert s[1..] == Encode(v / 256, n - 1);
      AssembleEncode(v / 256, n - 1);
    }
  }

  lemma {:induction false} EncodeAssemble(s: seq<u8>)
    ensures Assemble(s) < Pow256(|s|)
    ensures Encode(Assemble(s), |s|) == s
  {
    if s != [] {
      EncodeAssemble(s[1..]);
      var v := Assemble(s);
      assert v / 256 == Assemble(s[1..]) && v % 256 == s[0];
      forall i | 0 <= i < |s| ensures ByteAt(v, i) == s[i] {
        if i > 0 {
          assert s[i] == s[1..][i - 1];
        }
      }
    }
  }

  /** Appending a byte adds it at the next weight: the step of every gathering loop. */
  lemma {:induction false} AssembleAppend(s: seq<u8>, b: u8)
    ensures Assemble(s + [b]) == Assemble(s) + b * Pow256(|s|)
  {
    if s == [] {
    } else {
      assert (s + [b])[1..] == s[1..] + [b];
      AssembleAppend(s[1..], b);
      assert b * (256 * Pow256(|s| - 1)) == 256 * (b * Pow256(|s| - 1));
    }
  }
}
