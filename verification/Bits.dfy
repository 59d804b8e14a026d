/** Numbers written in bits, the highest bit first, as QR codes store them. */
module Bits {
  import opened Bytes

  type BitSeq = seq<bool>

  function BitsHigh(b: nat, n: nat): (s: BitSeq)
    ensures |s| == n
  {
    if n == 0 then [] else BitsHigh(b / 2, n - 1) + [b % 2 == 1]
  }

  function Number(bits: BitSeq): (b: nat)
    ensures b < Pow2(|bits|)
  {
    if bits == [] then 0
    else 2 * Number(bits[..|bits| - 1]) + (if bits[|bits| - 1] then 1 else 0)
  }

  lemma {:induction false} NumberOfBits(b: nat, n: nat)
    requires b < Pow2(n)
    ensures Number(BitsHigh(b, n)) == b
  {
    if n > 0 {
      NumberOfBits(b / 2, n - 1);
      assert BitsHigh(b, n)[..n - 1] == BitsHigh(b / 2, n - 1);
    }
  }

  lemma {:induction false} BitsOfNumber(bits: BitSeq)
    ensures BitsHigh(Number(bits), |bits|) == bits
  {
    if bits != [] {
      var n := |bits| - 1;
      BitsOfNumber(bits[..n]);
      assert Number(bits) / 2 == Number(bits[..n]);
      assert bits == bits[..n] + [bits[n]];
    }
  }

  /** The bit under a mask that starts at the highest of the n bits. */
  lemma {:induction false} BitAt(b: nat, n: nat, j: nat)
    requires j < n
    ensures BitsHigh(b, n)[j] == ((b / Pow2(n - 1 - j)) % 2 == 1)
  {
    if j < n - 1 {
      BitAt(b / 2, n - 1, j);
      DivDiv(b, Pow2(n - 2 - j));
    }
  }
}
