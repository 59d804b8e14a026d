/** The flag bytes of a compressed tree: its bits, eight to a byte, the lowest bit first. */
module MerkleFlags {
  import opened Bytes

  /** The n lowest bits of b, the lowest first. */
  function BitsOf(b: nat, n: nat): (s: seq<bool>)
    ensures |s| == n
  {
    if n == 0 then [] else [b % 2 == 1] + BitsOf(b / 2, n - 1)
  }

  function Unpack(flags: Bytes): (s: seq<bool>)
    ensures |s| == 8 * |flags|
  {
    if flags == [] then [] else BitsOf(flags[0], 8) + Unpack(flags[1..])
  }

  /** The number whose lowest bits are these. */
  function Packed(bits: seq<bool>): (b: nat)
    ensures b < Pow2(|bits|)
  {
    if bits == [] then 0 else (if bits[0] then 1 else 0) + 2 * Packed(bits[1..])
  }

  lemma {:induction false} BitsOfAt(b: nat, n: nat, i: nat)
    requires i < n
    ensures BitsOf(b, n)[i] <==> (b / Pow2(i)) % 2 == 1
  {
    if i > 0 {
      BitsOfAt(b / 2, n - 1, i - 1);
      DivDiv(b, Pow2(i - 1));
    }
  }

  lemma {:induction false} PackedAppend(bits: seq<bool>, bit: bool)
    ensures Packed(bits + [bit]) == Packed(bits) + if bit then Pow2(|bits|) else 0
  {
    if bits == [] {
      assert Packed([bit][1..]) == 0;
    } else {
      PackedAppend(bits[1..], bit);
      assert (bits + [bit])[1..] == bits[1..] + [bit];
    }
  }

  function NoBits(n: nat): (s: seq<bool>)
    ensures |s| == n && forall i :: 0 <= i < n ==> !s[i]
  {
    seq(n, _ => false)
  }

  lemma {:induction false} BitsOfPacked(bits: seq<bool>, n: nat)
    requires |bits| <= n
    ensures BitsOf(Packed(bits), n) == bits + NoBits(n - |bits|)
  {
    if bits == [] {
      BitsOfZero(n);
    } else {
      assert Packed(bits) / 2 == Packed(bits[1..]);
      BitsOfPacked(bits[1..], n - 1);
    }
  }

  lemma {:induction false} BitsOfZero(n: nat)
    ensures BitsOf(0, n) == NoBits(n)
  {
    if n > 0 {
      BitsOfZero(n - 1);
    }
  }

  lemma {:induction false} UnpackAppend(flags: Bytes, b: Byte)
    ensures Unpack(flags + [b]) == Unpack(flags) + BitsOf(b, 8)
  {
    hide BitsOf;
    if flags == [] {
      assert Unpack([b][1..]) == [];
    } else {
      UnpackAppend(flags[1..], b);
      assert (flags + [b])[1..] == flags[1..] + [b];
    }
  }

  /** These flags carry these bits: no byte more than needed, except that there is always one, and
      the unused bits of the last byte are zero. */
  ghost predicate Carries(flags: Bytes, bits: seq<bool>) {
    && |flags| == (if bits == [] then 1 else (|bits| + 7) / 8)
    && Unpack(flags) == bits + NoBits(8 * |flags| - |bits|)
  }

  /** Some bits have been written: whole bytes to `flags`, the last `count` bits to `byte`. */
  ghost predicate Written(flags: Bytes, byte: nat, count: nat, bits: seq<bool>) {
    && |bits| == 8 * |flags| + count
    && Unpack(flags) == bits[..8 * |flags|]
    && byte == Packed(bits[8 * |flags|..])
  }

  lemma WriteBit(flags: Bytes, byte: nat, count: nat, bits: seq<bool>, bit: bool)
    requires Written(flags, byte, count, bits)
    ensures Written(flags, byte + if bit then Pow2(count) else 0, count + 1, bits + [bit])
  {
    PackedAppend(bits[8 * |flags|..], bit);
    assert (bits + [bit])[8 * |flags|..] == bits[8 * |flags|..] + [bit];
    assert (bits + [bit])[..8 * |flags|] == bits[..8 * |flags|];
  }

  lemma WriteByte(flags: Bytes, byte: Byte, count: nat, bits: seq<bool>)
    requires Written(flags, byte, count, bits) && count <= 8
    ensures Unpack(flags + [byte]) == bits + NoBits(8 - count)
    ensures count == 8 ==> Written(flags + [byte], 0, 0, bits)
  {
    UnpackAppend(flags, byte);
    BitsOfPacked(bits[8 * |flags|..], 8);
    assert bits == bits[..8 * |flags|] + bits[8 * |flags|..];
  }

  lemma WrittenIsByte(flags: Bytes, byte: nat, count: nat, bits: seq<bool>)
    requires Written(flags, byte, count, bits) && count <= 8
    ensures byte < 256
  {
    assert Pow2(8) == 256;
    if count < 8 {
      Pow2Below(count, 8);
    }
  }

  /** The flags of a list of bits. */
  method PackFlags(bits: seq<bool>) returns (flags: Bytes)
    ensures Carries(flags, bits)
  {
    flags := [];
    var byteCounter: nat := 0;
    var byte: nat := 0;
    for i := 0 to |bits|
      invariant byteCounter <= 8 && (i > 0 ==> byteCounter > 0)
      invariant Written(flags, byte, byteCounter, bits[..i])
    {
      WrittenIsByte(flags, byte, byteCounter, bits[..i]);
      if byteCounter == 8 {
        WriteByte(flags, byte, byteCounter, bits[..i]);
        flags := flags + [byte];
        byteCounter := 0;
        byte := 0;
      }
      WriteBit(flags, byte, byteCounter, bits[..i], bits[i]);
      assert bits[..i] + [bits[i]] == bits[..i + 1];
      if bits[i] {
        byte := byte + Pow2(byteCounter); // sets a bit that was zero
      }
      byteCounter := byteCounter + 1;
    }
    assert bits[..|bits|] == bits;
    WrittenIsByte(flags, byte, byteCounter, bits);
    WriteByte(flags, byte, byteCounter, bits);
    flags := flags + [byte];
  }

  lemma {:induction false} Pow2Below(m: nat, n: nat)
    requires m < n
    ensures 2 * Pow2(m) <= Pow2(n)
  {
    if m + 1 < n {
      Pow2Below(m, n - 1);
    }
  }
}
