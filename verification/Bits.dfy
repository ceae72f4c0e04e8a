/** Bit vectors.  Position i of a vector is the coefficient of x^i, so a machine
    word is written least significant bit first. */
module Bits {
  import opened Powers

  type Bits = seq<bool>

  /** An `unsigned char`, as its eight bits. */
  type Byte = b: Bits | |b| == 8 witness seq(8, _ => false)

  function Zeros(n: nat): (z: Bits)
    ensures |z| == n && forall i :: 0 <= i < n ==> !z[i]
  {
    seq(n, _ => false)
  }

  /** The vector of length n whose only set bit is at position k: `1 << k`. */
  function OneBit(n: nat, k: nat): (v: Bits)
    ensures |v| == n && forall i :: 0 <= i < n ==> v[i] == (i == k)
  {
    seq(n, i => i == k)
  }

  function Xor(a: Bits, b: Bits): (c: Bits)
    requires |a| == |b|
    ensures |c| == |a| && forall i :: 0 <= i < |a| ==> c[i] == (a[i] != b[i])
  {
    seq(|a|, i requires 0 <= i < |a| => a[i] != b[i])
  }

  function Or(a: Bits, b: Bits): (c: Bits)
    requires |a| == |b|
    ensures |c| == |a| && forall i :: 0 <= i < |a| ==> c[i] == (a[i] || b[i])
  {
    seq(|a|, i requires 0 <= i < |a| => a[i] || b[i])
  }

  function Reverse(a: Bits): (r: Bits)
    ensures |r| == |a| && forall i :: 0 <= i < |a| ==> r[i] == a[|a| - 1 - i]
  {
    seq(|a|, i requires 0 <= i < |a| => a[|a| - 1 - i])
  }

  /** `a << k` in a register of |a| bits: bits that leave at the top are lost. */
  function ShiftLeft(a: Bits, k: nat): (r: Bits)
    ensures |r| == |a| && forall i :: 0 <= i < |a| ==> r[i] == (i >= k && a[i - k])
  {
    seq(|a|, i requires 0 <= i < |a| => i >= k && a[i - k])
  }

  /** `a >> k` of an unsigned value. */
  function ShiftRight(a: Bits, k: nat): (r: Bits)
    ensures |r| == |a| && forall i :: 0 <= i < |a| ==> r[i] == (i + k < |a| && a[i + k])
  {
    seq(|a|, i requires 0 <= i < |a| => i + k < |a| && a[i + k])
  }

  /** Conversion to an unsigned type of n bits: truncate or zero-extend. */
  function Resize(a: Bits, n: nat): (r: Bits)
    ensures |r| == n && forall i :: 0 <= i < n ==> r[i] == (i < |a| && a[i])
  {
    seq(n, i requires 0 <= i < n => i < |a| && a[i])
  }

  /** The value of a vector as a number. */
  function ToNat(a: Bits): nat {
    if a == [] then 0 else (if a[0] then 1 else 0) + 2 * ToNat(a[1..])
  }

  function FromNat(n: nat, v: nat): (a: Bits)
    ensures |a| == n
  {
    if n == 0 then [] else [v % 2 == 1] + FromNat(n - 1, v / 2)
  }

  lemma {:induction false} ToNatFromNat(n: nat, v: nat)
    requires v < Pow2(n)
    ensures ToNat(FromNat(n, v)) == v
  {
    if n > 0 {
      ToNatFromNat(n - 1, v / 2);
      assert FromNat(n, v)[1..] == FromNat(n - 1, v / 2);
    }
  }

  lemma {:induction false} FromNatToNat(a: Bits)
    ensures ToNat(a) < Pow2(|a|)
    ensures FromNat(|a|, ToNat(a)) == a
  {
    if a != [] {
      FromNatToNat(a[1..]);
      assert ToNat(a) / 2 == ToNat(a[1..]);
      assert a == [a[0]] + a[1..];
    }
  }

  lemma XorZeros(a: Bits)
    ensures Xor(Zeros(|a|), a) == a && Xor(a, Zeros(|a|)) == a
  {
  }

  lemma XorSelf(a: Bits)
    ensures Xor(a, a) == Zeros(|a|)
  {
  }

  lemma XorCancels(a: Bits, b: Bits)
    requires |a| == |b|
    ensures Xor(Xor(a, b), a) == b
  {
  }

  lemma ReverseXor(a: Bits, b: Bits)
    requires |a| == |b|
    ensures Reverse(Xor(a, b)) == Xor(Reverse(a), Reverse(b))
  {
  }

  lemma XorSwap(a: Bits, b: Bits, c: Bits)
    requires |a| == |b| == |c|
    ensures Xor(Xor(a, b), c) == Xor(a, Xor(c, b))
  {
  }

  lemma ReverseTwice(a: Bits)
    ensures Reverse(Reverse(a)) == a
  {
  }

  lemma ReverseConcat(a: Bits, b: Bits)
    ensures Reverse(a + b) == Reverse(b) + Reverse(a)
  {
  }

  lemma AppendOne(a: Bits, c: bool)
    ensures (a + [c])[..|a|] == a && (a + [c])[|a|] == c
  {
  }
}
