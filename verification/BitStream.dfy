/** The growing bit sequence of bitstream.c, and its packing into bytes. */
module BitStreams {
  import opened Bytes
  import opened Bits

  function BitsOfBytes(s: Bytes): (bits: BitSeq)
    ensures |bits| == 8 * |s|
  {
    if s == [] then [] else BitsHigh(s[0], 8) + BitsOfBytes(s[1..])
  }

  /** Eight bits to a byte; what is left over at the end goes into the low bits of a last byte. */
  function BytesOfBits(bits: BitSeq): (s: Bytes)
    ensures |s| == (|bits| + 7) / 8
  {
    if bits == [] then []
    else if |bits| < 8 then
      ByteRange(bits);
      [Number(bits)]
    else
      ByteRange(bits[..8]);
      [Number(bits[..8])] + BytesOfBits(bits[8..])
  }

  lemma {:induction false} ByteRange(bits: BitSeq)
    requires |bits| <= 8
    ensures Number(bits) < 256
  {
    Pow2Monotone(|bits|, 8);
    assert Pow2(8) == 256;
  }

  lemma {:induction false} Pow2Monotone(m: nat, n: nat)
    requires m <= n
    ensures Pow2(m) <= Pow2(n)
  {
    if m < n {
      Pow2Monotone(m, n - 1);
    }
  }

  /** Packing loses nothing when the bits fill whole bytes. */
  lemma {:induction false} PackedWhole(bits: BitSeq)
    requires |bits| % 8 == 0
    ensures BitsOfBytes(BytesOfBits(bits)) == bits
  {
    if bits != [] {
      BitsOfNumber(bits[..8]);
      PackedWhole(bits[8..]);
      assert bits == bits[..8] + bits[8..];
    }
  }

  lemma {:induction false} BitsOfBytesAppend(s: Bytes, t: Bytes)
    ensures BitsOfBytes(s + t) == BitsOfBytes(s) + BitsOfBytes(t)
  {
    if s == [] {
      assert s + t == t;
    } else {
      assert (s + t)[1..] == s[1..] + t;
      BitsOfBytesAppend(s[1..], t);
    }
  }

  lemma BitsOfByte(b: Byte)
    ensures BitsOfBytes([b]) == BitsHigh(b, 8)
  {
    assert [b][1..] == [];
  }

  class BitStream {
    var data: BitSeq

    constructor ()
      ensures data == []
    {
      data := [];
    }

    /** BitStream_appendNum, with the loop of BitStream_newFromNum. */
    method AppendNum(bits: nat, num: nat)
      modifies this
      ensures data == old(data) + BitsHigh(num, bits)
    {
      hide BitsHigh;
      if bits == 0 {
        NoBits(num);
        return;
      }
      var p: BitSeq := [];
      var mask := Pow2(bits - 1);
      for i := 0 to bits
        invariant mask == if i < bits then Pow2(bits - 1 - i) else 0
        invariant p == BitsHigh(num, bits)[..i]
        invariant data == old(data)
      {
        BitAt(num, bits, i);
        p := p + [(num / mask) % 2 == 1];
        mask := mask / 2;
      }
      data := data + p;
    }

    /** BitStream_appendBytes, with the loops of BitStream_newFromBytes. */
    method AppendBytes(bytes: Bytes)
      modifies this
      ensures data == old(data) + BitsOfBytes(bytes)
    {
      hide BitsHigh, BitsOfBytes;
      var p: BitSeq := [];
      NoBytes();
      for i := 0 to |bytes|
        invariant p == BitsOfBytes(bytes[..i])
        invariant data == old(data)
      {
        ghost var before := p;
        var mask := 128;
        TopBit();
        for j := 0 to 8
          invariant mask == if j < 8 then Pow2(7 - j) else 0
          invariant p == before + BitsHigh(bytes[i], 8)[..j]
          invariant data == old(data)
        {
          BitAt(bytes[i], 8, j);
          p := p + [(bytes[i] / mask) % 2 == 1];
          mask := mask / 2;
        }
        assert bytes[..i + 1] == bytes[..i] + [bytes[i]];
        BitsOfBytesAppend(bytes[..i], [bytes[i]]);
        BitsOfByte(bytes[i]);
      }
      assert bytes[..|bytes|] == bytes;
      data := data + p;
    }

    method Append(arg: BitStream)
      modifies this
      ensures data == old(data) + old(arg.data)
    {
      data := data + arg.data;
    }

    /** BitStream_toByte: nothing for an empty stream. */
    method ToByte() returns (bytes: Option<Bytes>)
      ensures bytes == if data == [] then None else Some(BytesOfBits(data))
    {
      hide Number, BytesOfBits;
      NoBitsPack();
      var size := |data|;
      if size == 0 {
        return None;
      }
      var out: Bytes := [];
      var p := 0;
      for i := 0 to size / 8
        invariant p == 8 * i
        invariant BytesOfBits(data) == out + BytesOfBits(data[p..])
      {
        var v := PackBits(data[p..p + 8]);
        assert data[p..][..8] == data[p..p + 8] && data[p..][8..] == data[p + 8..];
        PackNext(data[p..]);
        out := out + [v];
        p := p + 8;
      }
      assert p == size - size % 8;
      if size % 8 == 0 {
        assert data[p..] == [] && out + [] == out;
      } else {
        var v := PackBits(data[p..]);
        assert 0 < |data[p..]| < 8;
        PackNext(data[p..]);
        out := out + [v];
      }
      return Some(out);
    }
  }

  lemma NoBitsPack()
    ensures BytesOfBits([]) == []
  {
  }

  lemma PackNext(bits: BitSeq)
    requires bits != []
    ensures |bits| < 8 ==> Number(bits) < 256 && BytesOfBits(bits) == [Number(bits)]
    ensures |bits| >= 8 ==> Number(bits[..8]) < 256 && BytesOfBits(bits) == [Number(bits[..8])] + BytesOfBits(bits[8..])
  {
    ByteRange(if |bits| < 8 then bits else bits[..8]);
  }

  lemma TopBit()
    ensures Pow2(7) == 128
  {
  }

  lemma NoBits(num: nat)
    ensures BitsHigh(num, 0) == []
  {
  }

  lemma NoBytes()
    ensures BitsOfBytes([]) == []
  {
  }

  /** The inner loop of BitStream_toByte: shift and insert. */
  method PackBits(bits: BitSeq) returns (v: nat)
    ensures v == Number(bits)
  {
    v := 0;
    for j := 0 to |bits|
      invariant v == Number(bits[..j])
    {
      assert bits[..j + 1][..j] == bits[..j];
      v := v * 2 + if bits[j] then 1 else 0;
    }
    assert bits[..|bits|] == bits;
  }
}
