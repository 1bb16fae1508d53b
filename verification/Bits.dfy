/** Bytes, and numbers written as sequences of bits, least significant bit first. */
module Bits {

  type byte = b: int | 0 <= b < 256

  function ToBits(n: nat, k: nat): (bits: seq<bool>)
    ensures |bits| == k
    decreases k
  {
    if k == 0 then [] else [n % 2 == 1] + ToBits(n / 2, k - 1)
  }

  function FromBits(bits: seq<bool>): (n: nat)
  {
    if bits == [] then 0 else (if bits[0] then 1 else 0) + 2 * FromBits(bits[1..])
  }

  function Pow2(k: nat): (p: nat)
    ensures p > 0
  {
    if k == 0 then 1 else 2 * Pow2(k - 1)
  }

  lemma Pow2Plus8(k: nat)
    ensures Pow2(k + 8) == 256 * Pow2(k)
  {
    assert Pow2(k + 8) == 4 * Pow2(k + 6) && Pow2(k + 6) == 4 * Pow2(k + 4);
    assert Pow2(k + 4) == 4 * Pow2(k + 2) && Pow2(k + 2) == 4 * Pow2(k);
  }

  lemma Pow2Of8()
    ensures Pow2(8) == 0x100
  {
    Pow2Plus8(0);
  }

  lemma Pow2Of32()
    ensures Pow2(32) == 0x1_0000_0000
  {
    Pow2Of8();
    Pow2Plus8(8);
    Pow2Plus8(16);
    Pow2Plus8(24);
  }

  lemma {:induction false} FromToBits(n: nat, k: nat)
    requires n < Pow2(k)
    ensures FromBits(ToBits(n, k)) == n
    decreases k
  {
    if k > 0 {
      FromToBits(n / 2, k - 1);
      assert ToBits(n, k)[1..] == ToBits(n / 2, k - 1);
    }
  }

  lemma {:induction false} ToFromBits(bits: seq<bool>)
    ensures FromBits(bits) < Pow2(|bits|)
    ensures ToBits(FromBits(bits), |bits|) == bits
  {
    if bits != [] {
      ToFromBits(bits[1..]);
    }
  }

  function Zeros(k: nat): (z: seq<bool>)
    ensures |z| == k && forall i :: 0 <= i < k ==> !z[i]
  {
    seq(k, _ => false)
  }

  lemma Doubled(a: nat, b: nat)
    ensures (2 * a) * b == 2 * (a * b)
  {
  }

  lemma {:induction false} FromBitsSplit(bits: seq<bool>, k: nat)
    requires k <= |bits|
    ensures FromBits(bits) == FromBits(bits[..k]) + Pow2(k) * FromBits(bits[k..])
  {
    if k == 0 {
      assert bits[..0] == [] && bits[0..] == bits;
    } else {
      FromBitsSplit(bits[1..], k - 1);
      assert bits[1..][..k - 1] == bits[..k][1..] && bits[1..][k - 1..] == bits[k..];
      Doubled(Pow2(k - 1), FromBits(bits[k..]));
    }
  }
}
