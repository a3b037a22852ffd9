/** Bytes, and the least-significant-bit-first view of a byte string. */
module Bytes {
  type byte = b: int | 0 <= b < 256

  /** The `m` low bits of `v`, least significant first. */
  function BitsOf(v: nat, m: nat): (bits: seq<bool>)
    ensures |bits| == m
  {
    if m == 0 then [] else [v % 2 == 1] + BitsOf(v / 2, m - 1)
  }

  /** The number whose bits, least significant first, are `bits`. */
  function ValueOf(bits: seq<bool>): nat {
    if bits == [] then 0 else (if bits[0] then 1 else 0) + 2 * ValueOf(bits[1..])
  }

  /** A byte string as a bit string, each byte read low bit first (GIF89a, Appendix F). */
  function BitStream(bytes: seq<byte>): (bits: seq<bool>)
    ensures |bits| == 8 * |bytes|
  {
    if bytes == [] then [] else BitsOf(bytes[0], 8) + BitStream(bytes[1..])
  }

  function Pow256(n: nat): (p: nat)
    ensures p > 0
  {
    if n == 0 then 1 else 256 * Pow256(n - 1)
  }

  /** `int.to_bytes(n, 'little')` for a value that fits in `n` bytes. */
  function ToBytes(v: nat, n: nat): (bytes: seq<byte>)
    ensures |bytes| == n
  {
    if n == 0 then [] else [v % 256] + ToBytes(v / 256, n - 1)
  }

  lemma LowByteBits(v: nat, m: nat)
    requires m >= 8
    ensures BitsOf(v, m) == BitsOf(v % 256, 8) + BitsOf(v / 256, m - 8)
  {
    assert Pow2(8) == 256;
    SplitBits(v % 256, v / 256, 8, m - 8);
    assert v == v % 256 + Pow2(8) * (v / 256);
    assert 8 + (m - 8) == m;
  }

  function Pow2(n: nat): (p: nat)
    ensures p > 0
  {
    if n == 0 then 1 else 2 * Pow2(n - 1)
  }

  lemma LowBit(lo: nat, hi: nat, half: nat)
    ensures var v := lo + 2 * half * hi; v % 2 == lo % 2 && v / 2 == lo / 2 + half * hi
  {
    var p := half * hi;
    assert 2 * half * hi == 2 * p;
    assert lo + 2 * p == 2 * (lo / 2 + p) + lo % 2;
  }

  /** Bits of `lo + 2^a * hi` are the bits of `lo` followed by the bits of `hi`. */
  lemma {:induction false} SplitBits(lo: nat, hi: nat, a: nat, m: nat)
    requires lo < Pow2(a)
    ensures BitsOf(lo + Pow2(a) * hi, a + m) == BitsOf(lo, a) + BitsOf(hi, m)
  {
    if a != 0 {
      var v := lo + Pow2(a) * hi;
      var p := Pow2(a - 1) * hi;
      LowBit(lo, hi, Pow2(a - 1));
      SplitBits(lo / 2, hi, a - 1, m);
      assert Pow2(a) == 2 * Pow2(a - 1);
      hide Pow2;
      var first := [lo % 2 == 1];
      assert BitsOf(v, a + m) == first + BitsOf(v / 2, a - 1 + m);
      assert BitsOf(lo, a) == first + BitsOf(lo / 2, a - 1);
    }
  }

  /** Little-endian bytes hold the bits of the number in order. */
  lemma {:induction false} BitStreamOfToBytes(v: nat, n: nat)
    ensures BitStream(ToBytes(v, n)) == BitsOf(v, 8 * n)
  {
    if n != 0 {
      LowByteBits(v, 8 * n);
      BitStreamOfToBytes(v / 256, n - 1);
    }
  }

  lemma {:induction false} ValueOfBits(v: nat, m: nat)
    requires v < Pow2(m)
    ensures ValueOf(BitsOf(v, m)) == v
  {
    if m != 0 {
      ValueOfBits(v / 2, m - 1);
    }
  }
}
