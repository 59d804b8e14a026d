/** Numbers on the wire: fixed-width little-endian integers and the variable-length count. */
module Wire {
  import opened Bytes

  type UInt32 = n: nat | n < 0x1_0000_0000
  type UInt64 = n: nat | n < 0x1_0000_0000_0000_0000

  lemma Widths()
    ensures Pow256(1) == 0x100 && Pow256(2) == 0x1_0000
    ensures Pow256(4) == 0x1_0000_0000 && Pow256(8) == 0x1_0000_0000_0000_0000
  {
    assert Pow256(3) == 0x100_0000 && Pow256(5) == 0x100_0000_0000 && Pow256(6) == 0x1_0000_0000_0000;
    assert Pow256(7) == 0x100_0000_0000_0000;
  }

  /** n in k bytes, the lowest first. */
  function LE(n: nat, k: nat): (b: Bytes)
    ensures |b| == k
  {
    if k == 0 then [] else [n % 256] + LE(n / 256, k - 1)
  }

  function FromLE(b: Bytes): (n: nat)
    ensures n < Pow256(|b|)
  {
    if b == [] then 0 else b[0] + 256 * FromLE(b[1..])
  }

  lemma {:induction false} LERoundTrip(n: nat, k: nat)
    requires n < Pow256(k)
    ensures FromLE(LE(n, k)) == n
  {
    if k > 0 {
      LERoundTrip(n / 256, k - 1);
    }
  }

  function LE32(n: UInt32): (b: Bytes)
    ensures |b| == 4 && FromLE(b) == n
  {
    Widths();
    LERoundTrip(n, 4);
    LE(n, 4)
  }

  function LE64(n: UInt64): (b: Bytes)
    ensures |b| == 8 && FromLE(b) == n
  {
    Widths();
    LERoundTrip(n, 8);
    LE(n, 8)
  }

  function From32(b: Bytes): UInt32
    requires |b| == 4
  {
    Widths();
    FromLE(b)
  }

  function From64(b: Bytes): UInt64
    requires |b| == 8
  {
    Widths();
    FromLE(b)
  }

  // ----- VarInt

  function VarIntSize(v: UInt64): nat {
    if v < 0xfd then 1 else if v <= 0xffff then 3 else if v <= 0xffff_ffff then 5 else 9
  }

  function VarInt(v: UInt64): (b: Bytes)
    ensures |b| == VarIntSize(v)
  {
    if v < 0xfd then [v]
    else if v <= 0xffff then [0xfd] + LE(v, 2)
    else if v <= 0xffff_ffff then [0xfe] + LE(v, 4)
    else [0xff] + LE(v, 8)
  }

  /** What is read from the front of `bytes`; None is the exception. */
  function ParseVarInt(bytes: Bytes): Option<UInt64> {
    Widths();
    if |bytes| < 1 then None
    else if bytes[0] < 0xfd then Some(bytes[0])
    else if bytes[0] == 0xfd && |bytes| >= 3 then Some(FromLE(bytes[1..3]))
    else if bytes[0] == 0xfe && |bytes| >= 5 then Some(FromLE(bytes[1..5]))
    else if |bytes| >= 9 then Some(FromLE(bytes[1..9]))
    else None
  }

  lemma VarIntRoundTrip(v: UInt64, suffix: Bytes)
    ensures ParseVarInt(VarInt(v) + suffix) == Some(v)
  {
    Widths();
    var bytes := VarInt(v) + suffix;
    if 0xfd <= v <= 0xffff {
      assert bytes[1..3] == LE(v, 2);
      LERoundTrip(v, 2);
    } else if 0xffff < v <= 0xffff_ffff {
      assert bytes[1..5] == LE(v, 4);
      LERoundTrip(v, 4);
    } else if 0xffff_ffff < v {
      assert bytes[1..9] == LE(v, 8);
      LERoundTrip(v, 8);
    }
  }

  /** The parser never reads fewer bytes than the canonical form of the value has. */
  lemma VarIntFits(bytes: Bytes)
    requires ParseVarInt(bytes).Some?
    ensures VarIntSize(ParseVarInt(bytes).value) <= |bytes|
  {
    Widths();
  }

  // ----- Taking a string of bytes apart

  lemma Slices(a: Bytes, b: Bytes, c: Bytes)
    ensures (a + b + c)[|a|..] == b + c
    ensures (a + b + c)[|a|..|a| + |b|] == b
    ensures (a + b + c)[|a| + |b|..] == c
    ensures (a + b + c)[..|a|] == a
  {
  }
}
