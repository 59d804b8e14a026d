/** The input object of qrinput.c: choice of the version, padding, and the byte stream. */
module QRInputs {
  import opened Bytes
  import opened Bits
  import opened BitStreams
  import opened QRSpec
  import opened QRSegments
  import opened QREncoder
  import opened QREstimates
  import opened QRVersions

  // ----- Padding

  /** The bytes that fill a symbol: 0xEC and 0x11 in turn. */
  function PadBytes(n: nat): (s: Bytes)
    ensures |s| == n
  {
    seq(n, i => if i % 2 == 1 then 0x11 else 0xEC)
  }

  /** What is appended to a stream of so many bits to fill maxwords bytes. */
  function Padding(bits: nat, maxwords: nat): (pad: BitSeq)
    requires bits <= 8 * maxwords
    ensures bits + |pad| == 8 * maxwords
  {
    if 8 * maxwords - bits <= 4 then BitsHigh(0, 8 * maxwords - bits)
    else
      var words := (bits + 4 + 7) / 8;
      BitsHigh(0, words * 8 - bits) + BitsOfBytes(PadBytes(maxwords - words))
  }

  lemma {:induction false} ZeroBits(n: nat, k: nat)
    requires k <= n
    ensures Number(BitsHigh(0, n)[..k]) == 0
  {
    if n == k {
      NumberOfBits(0, n);
      assert BitsHigh(0, n)[..n] == BitsHigh(0, n);
    } else {
      ZeroBits(n - 1, k);
      assert BitsHigh(0, n)[..k] == BitsHigh(0, n - 1)[..k];
    }
  }

  /** The padding starts with a terminator, as far as there is room for one. */
  lemma PaddingTerminates(bits: nat, maxwords: nat)
    requires bits <= 8 * maxwords
    ensures Terminated(Padding(bits, maxwords))
  {
    hide BitsHigh, Number, BitsOfBytes;
    var pad := Padding(bits, maxwords);
    if |pad| >= 4 {
      var zeros := if 8 * maxwords - bits <= 4 then 8 * maxwords - bits else (bits + 11) / 8 * 8 - bits;
      ZeroBits(zeros, 4);
      assert pad[..4] == BitsHigh(0, zeros)[..4];
    }
  }

  /** What fills the symbol behind the terminator: zeros to the end of a byte, and then 0xEC and 0x11 in turn. */
  lemma PaddingMeans(bits: nat, maxwords: nat, z: nat)
    requires bits + 4 < 8 * maxwords
    requires 4 <= z < 12 && (bits + z) % 8 == 0
    ensures var pad := Padding(bits, maxwords);
      && z <= |pad| && Number(pad[..z]) == 0
      && forall k: nat | z + 8 * k + 8 <= |pad| ::
           Number(pad[z + 8 * k..z + 8 * k + 8]) == if k % 2 == 0 then 0xEC else 0x11
  {
    hide BitsHigh, Number, BitsOfBytes;
    var pad, words := Padding(bits, maxwords), (bits + 11) / 8;
    assert z == words * 8 - bits;
    var bytes := PadBytes(maxwords - words);
    ZeroBits(z, z);
    assert pad[..z] == BitsHigh(0, z)[..z];
    forall k: nat | z + 8 * k + 8 <= |pad|
      ensures Number(pad[z + 8 * k..z + 8 * k + 8]) == if k % 2 == 0 then 0xEC else 0x11
    {
      ByteOfBits(bytes, k);
      assert pad[z + 8 * k..z + 8 * k + 8] == BitsOfBytes(bytes)[8 * k..8 * k + 8];
    }
  }

  lemma {:induction false} ByteOfBits(s: Bytes, k: nat)
    requires k < |s|
    ensures Number(BitsOfBytes(s)[8 * k..8 * k + 8]) == s[k]
  {
    hide BitsHigh, Number;
    if k == 0 {
      SmallPowers();
      NumberOfBits(s[0], 8);
      assert BitsOfBytes(s)[..8] == BitsHigh(s[0], 8);
    } else {
      ByteOfBits(s[1..], k - 1);
      assert BitsOfBytes(s)[8 * k..8 * k + 8] == BitsOfBytes(s[1..])[8 * (k - 1)..8 * (k - 1) + 8];
    }
  }

  // ----- The input object

  class QRInput {
    var version: Version
    var level: Level
    var entries: seq<Entry>

    predicate Valid()
      reads this
    {
      Good(entries)
    }

    constructor (version: Version, level: Level)
      ensures Valid() && this.version == version && this.level == level && entries == []
    {
      this.version := version;
      this.level := level;
      entries := [];
    }

    /** QRinput_append: takes what the check accepts. */
    method Append(mode: Mode, data: Bytes) returns (ok: bool)
      requires Valid() && mode != Structure
      modifies `entries
      ensures Valid()
      ensures ok <==> Check(mode, data)
      ensures entries == if ok then old(entries) + [Entry(mode, data)] else old(entries)
    {
      if !Check(mode, data) {
        return false;
      }
      entries := entries + [Entry(mode, data)];
      return true;
    }

    method EstimateBitStreamSize(version: Version) returns (bits: nat)
      ensures bits == EstimateAll(entries, version)
    {
      bits := 0;
      for i := 0 to |entries|
        invariant bits == EstimateAll(entries[..i], version)
      {
        assert entries[..i + 1][..i] == entries[..i];
        bits := bits + EstimateEntry(entries[i], version);
      }
      assert entries[..|entries|] == entries;
    }

    /** QRinput_estimateVersion: tries larger versions until the estimate no longer asks for one. */
    method EstimateVersion() returns (r: Option<Version>)
      ensures r.Some? ==>
                && r.value >= 1
                && exists prev: Version ::
                     r.value <= prev && BytesFor(EstimateAll(entries, prev)) <= DataLength(r.value, level)
      ensures r == EstimateFrom(entries, level, 0)
    {
      hide EstimateAll, DataLength;
      var version: Version := 0;
      while true
        invariant EstimateFrom(entries, level, 0) == EstimateFrom(entries, level, version)
        decreases VERSION_MAX - version
      {
        var prev := version;
        var bits := EstimateBitStreamSize(prev);
        var v := GetMinimumVersion(BytesFor(bits), level);
        if v.None? {
          return None;
        }
        version := v.value;
        if version <= prev {
          return Some(version);
        }
      }
    }

    /** QRinput_createBitStream: one stream for each entry, and their total length. */
    method CreateBitStream() returns (streams: seq<BitSeq>, total: nat)
      requires Valid()
      ensures Merged(streams) == EncodedAll(entries, version) && total == |Merged(streams)|
    {
      hide Encoded, GoodEntry;
      streams, total := [], 0;
      for i := 0 to |entries|
        invariant Merged(streams) == EncodedAll(entries[..i], version) && total == |Merged(streams)|
      {
        EncodedAllNext(entries, i, version);
        var bstream := EncodeBitStream(entries[i], version);
        MergedNext(streams, bstream.data);
        streams := streams + [bstream.data];
        total := total + |bstream.data|;
      }
      assert entries[..|entries|] == entries;
    }

    /**
     * QRinput_convertData: raises the version until the encoded bits fit. It fails just when even
     * the largest symbol is too small for the bits of the version it has come to.
     */
    method ConvertData() returns (ok: bool, streams: seq<BitSeq>)
      requires Valid()
      modifies `version
      ensures old(version) <= version
      ensures ok <==> FinalVersion(entries, level, old(version)) != None
      ensures ok ==> FinalVersion(entries, level, old(version)) == Some(version)
      ensures ok ==> LeastFor(entries, level, old(version), version)
      ensures ok ==> version >= 1 && Merged(streams) == EncodedAll(entries, version)
      ensures ok ==> |EncodedAll(entries, version)| <= 8 * DataLength(version, level)
      ensures !ok ==> forall v: Version | v >= 1 :: 8 * DataLength(v, level) < |EncodedAll(entries, version)|
    {
      hide DataLength, EncodedAll, GoodEntry, Merged, EstimateAll, LeastFor;
      FinalVersionIsLeast(entries, level, version);
      var estimate := EstimateVersion();
      if estimate.Some? && estimate.value > version {
        version := estimate.value;
      }
      while true
        invariant old(version) <= version
        invariant FinalVersion(entries, level, old(version)) == Settled(entries, level, version)
        decreases VERSION_MAX - version
      {
        var bits;
        streams, bits := CreateBitStream();
        var ver := GetMinimumVersion(BytesFor(bits), level);
        if ver.None? {
          return false, streams;
        } else if ver.value > version {
          version := ver.value;
        } else {
          CapacityMonotone(ver.value, version, level);
          return true, streams;
        }
      }
    }

    /** QRinput_appendPaddingBit. */
    method AppendPaddingBit(bstream: BitStream) returns (ok: bool)
      modifies bstream
      ensures ok <==> old(|bstream.data|) <= 8 * DataLength(version, level)
      ensures ok ==> bstream.data == old(bstream.data) + Padding(old(|bstream.data|), DataLength(version, level))
    {
      hide DataLength, BitsHigh, BitsOfBytes;
      var bits := |bstream.data|;
      var maxwords := DataLength(version, level);
      var maxbits := maxwords * 8;
      if maxbits < bits {
        return false;
      }
      if maxbits == bits {
        NoBits(0);
        return true;
      }
      if maxbits - bits <= 4 {
        bstream.AppendNum(maxbits - bits, 0);
        return true;
      }
      var words := (bits + 4 + 7) / 8;
      var padding := new BitStream();
      padding.AppendNum(words * 8 - bits, 0);
      var padlen := maxwords - words;
      if padlen > 0 {
        var padbuf := PadBuffer(padlen);
        padding.AppendBytes(padbuf);
      } else {
        NoBytes();
      }
      bstream.Append(padding);
      return true;
    }

    /** QRinput_getByteStream: convert, merge, pad and pack. */
    method GetByteStream() returns (bytes: Option<Bytes>)
      requires Valid()
      modifies `version
      ensures old(version) <= version
      ensures bytes.Some? <==> FinalVersion(entries, level, old(version)) != None
      ensures bytes.Some? ==> FinalVersion(entries, level, old(version)) == Some(version)
      ensures bytes.Some? ==> LeastFor(entries, level, old(version), version)
      ensures bytes.Some? ==>
        && version >= 1 && |bytes.value| == DataLength(version, level)
        && |EncodedAll(entries, version)| <= 8 * DataLength(version, level)
        && BitsOfBytes(bytes.value) == EncodedAll(entries, version)
                                       + Padding(|EncodedAll(entries, version)|, DataLength(version, level))
      ensures bytes.None? ==> forall v: Version | v >= 1 :: 8 * DataLength(v, level) < |EncodedAll(entries, version)|
    {
      hide DataLength, EncodedAll, GoodEntry, Padding, BitsOfBytes, BytesOfBits, LeastFor;
      var ok, streams := ConvertData();
      if !ok {
        return None;
      }
      var bstream := MergeStreams(streams);
      ok := AppendPaddingBit(bstream);
      assert ok;
      CapacityPositive(version, level);
      bytes := bstream.ToByte();
      PackedSize(bstream.data, DataLength(version, level));
    }
  }

  lemma PackedSize(bits: BitSeq, words: nat)
    requires |bits| == 8 * words
    ensures |BytesOfBits(bits)| == words && BitsOfBytes(BytesOfBits(bits)) == bits
  {
    hide BytesOfBits, BitsOfBytes;
    PackedWhole(bits);
    PackedLength(bits);
  }

  lemma PackedLength(bits: BitSeq)
    ensures |BytesOfBits(bits)| == (|bits| + 7) / 8
  {
  }

  lemma CapacityPositive(version: Version, level: Level)
    requires version >= 1
    ensures DataLength(version, level) > 0
  {
    CapacityRises(version - 1, level);
  }

  /** The loop of QRinput_mergeBitStream. */
  method MergeStreams(streams: seq<BitSeq>) returns (bstream: BitStream)
    ensures fresh(bstream) && bstream.data == Merged(streams)
  {
    bstream := new BitStream();
    MergedEmpty();
    for i := 0 to |streams|
      invariant fresh(bstream) && bstream.data == Merged(streams[..i])
    {
      assert streams[..i + 1] == streams[..i] + [streams[i]];
      MergedNext(streams[..i], streams[i]);
      bstream.data := bstream.data + streams[i];
    }
    assert streams[..|streams|] == streams;
  }

  method PadBuffer(padlen: nat) returns (padbuf: Bytes)
    ensures padbuf == PadBytes(padlen)
  {
    padbuf := [];
    for i := 0 to padlen
      invariant padbuf == PadBytes(i)
    {
      padbuf := padbuf + [if i % 2 == 1 then 0x11 else 0xEC];
    }
  }

  function Merged(streams: seq<BitSeq>): BitSeq {
    if streams == [] then [] else Merged(streams[..|streams| - 1]) + streams[|streams| - 1]
  }

  lemma MergedEmpty()
    ensures Merged([]) == []
  {
  }

  lemma MergedNext(streams: seq<BitSeq>, s: BitSeq)
    ensures Merged(streams + [s]) == Merged(streams) + s
  {
    assert (streams + [s])[..|streams|] == streams;
  }

  /** The byte stream of a symbol is decoded to the bytes of the input, each with its mode. */
  lemma ByteStreamDecodes(es: seq<Entry>, version: Version, level: Level, bytes: Bytes)
    requires Good(es) && 0 <= DataLength(version, level) && |EncodedAll(es, version)| <= 8 * DataLength(version, level)
    requires BitsOfBytes(bytes)
          == EncodedAll(es, version) + Padding(|EncodedAll(es, version)|, DataLength(version, level))
    ensures Recovers(DecodeStream(BitsOfBytes(bytes), version), es)
  {
    hide EncodedAll, Recovers, GoodEntry, DataLength, Padding, DecodeStream;
    PaddingTerminates(|EncodedAll(es, version)|, DataLength(version, level));
    InputRoundTrip(es, version, Padding(|EncodedAll(es, version)|, DataLength(version, level)));
  }
}
