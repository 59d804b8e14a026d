/** The estimates of qrinput.c, and the version they lead to. */
module QREstimates {
  import opened Bytes
  import opened Bits
  import opened BitStreams
  import opened QRSpec
  import opened QRSegments
  import opened QREncoder

  const STRUCTURE_HEADER_SIZE := 20
  const MODE_INDICATOR_SIZE := 4

  // ----- Estimates

  function Segments(size: nat, m: nat): (n: nat)
    requires m > 0
    ensures size > 0 ==> n >= 1
    ensures size <= m && size > 0 ==> n == 1
    ensures size == 0 ==> n == 0
  {
    SegmentsIs(size, m);
    (size + m - 1) / m
  }

  lemma SegmentsIs(size: nat, m: nat)
    requires m > 0
    ensures (size + m - 1) / m >= 0
    ensures size > 0 ==> (size + m - 1) / m >= 1
    ensures 0 < size <= m ==> (size + m - 1) / m == 1
    ensures size == 0 ==> (size + m - 1) / m == 0
  {
    if size == 0 {
      DivUnique(m - 1, m, 0, m - 1);
    } else if size <= m {
      DivUnique(size + m - 1, m, 1, size - 1);
    } else {
      var q := (size + m - 1) / m;
      MulGrows(q, m);
    }
  }

  /** QRinput_estimateBitStreamSizeOfEntry. */
  function EstimateEntry(e: Entry, version: Version): nat {
    var v: Version := if version == 0 then 1 else version;
    if e.mode == Structure then STRUCTURE_HEADER_SIZE
    else
      var l := LengthIndicator(e.mode, v);
      EstimateBits(e.mode, |e.data|) + Headers(Segments(|e.data|, Pow2(l)), MODE_INDICATOR_SIZE + l)
  }

  function Headers(num: nat, bits: nat): nat {
    MulMonotone(0, num, bits);
    num * bits
  }

  function EstimateAll(es: seq<Entry>, version: Version): nat {
    if es == [] then 0 else EstimateAll(es[..|es| - 1], version) + EstimateEntry(es[|es| - 1], version)
  }

  lemma PieceSize(p: Entry, version: Version)
    requires Piece(p, version)
    ensures |EncodePiece(p, version)|
         == if p.mode == Structure then STRUCTURE_HEADER_SIZE
            else MODE_INDICATOR_SIZE + LengthIndicator(p.mode, version) + EstimateBits(p.mode, |p.data|)
  {
    hide Payload, BitsHigh, Encodable, Pow2, LengthIndicator;
    if p.mode != Structure {
      PieceIs(p, version);
      PayloadLength(p.mode, p.data);
    }
  }

  /** One segment takes what the estimate says; only for long Kanji the estimate counts too much. */
  lemma PieceLength(p: Entry, version: Version)
    requires Piece(p, version) && version >= 1
    ensures |EncodePiece(p, version)| <= EstimateEntry(p, version)
    ensures p.mode != Kanji || |p.data| <= 256 ==> |EncodePiece(p, version)| == EstimateEntry(p, version)
  {
    hide EncodePiece, Encodable, Pow2, LengthIndicator;
    PieceSize(p, version);
    if p.mode != Structure {
      PieceWithin(p, version);
      var l := LengthIndicator(p.mode, version);
      MulMonotone(1, Segments(|p.data|, Pow2(l)), 4 + l);
    }
  }

  lemma PieceWithin(p: Entry, version: Version)
    requires Piece(p, version) && p.mode != Structure
    ensures 0 < |p.data|
    ensures p.mode != Kanji || |p.data| <= 256 ==> |p.data| <= Pow2(LengthIndicator(p.mode, version))
  {
    hide Pow2;
    Pow2Monotone(8, LengthIndicator(p.mode, version));
    SmallPowers();
  }

  lemma EstimateAtLeast(mode: Mode, size: nat)
    ensures mode == Num ==> 3 * EstimateBits(mode, size) >= 10 * size
    ensures mode == An ==> 2 * EstimateBits(mode, size) >= 11 * size
    ensures mode == Eight ==> EstimateBits(mode, size) == 8 * size
    ensures mode == Kanji ==> 2 * EstimateBits(mode, size) >= 13 * (size - 1)
  {
  }

  function WordsLimit(mode: Mode, g: nat): nat {
    match mode
    case Num => if g == 0 then 1023 else if g == 1 then 4095 else 16383
    case An => if g == 0 then 511 else if g == 1 then 2047 else 8191
    case Eight => if g == 0 then 255 else 65535
    case Kanji => if g == 0 then 510 else if g == 1 then 2046 else 8190
    case Structure => 0
  }

  lemma WordsInGroup(mode: Mode, version: Version)
    ensures MaximumWords(mode, version) == WordsLimit(mode, VersionGroup(version))
  {
    assert Pow2(8) == 256 && Pow2(9) == 512 && Pow2(10) == 1024 && Pow2(11) == 2048;
    assert Pow2(12) == 4096 && Pow2(13) == 8192 && Pow2(14) == 16384 && Pow2(16) == 65536;
  }

  /** An entry estimated to fit a symbol is short enough for one segment, also if it was estimated for larger ones. */
  lemma SmallIsPiece(e: Entry, v: Version, w: Version, level: Level)
    requires GoodEntry(e) && v >= 1 && w >= 1
    requires EstimateEntry(e, v) <= 8 * DataLength(w, level)
    ensures Piece(e, w)
    ensures |Encoded(e, w)| <= EstimateEntry(e, w)
    ensures VersionGroup(w) <= VersionGroup(v) ==> |Encoded(e, w)| <= EstimateEntry(e, v)
  {
    hide DataLength, Encodable, MaximumWords, EncodePiece, Encoded, Pow2, EstimateBits;
    GroupCapacity(w, level);
    EstimateAtLeast(e.mode, |e.data|);
    WordsInGroup(e.mode, w);
    CutEntry(e, w);
    EncodedParts(e, w);
    PieceLength(e, w);
    PieceSize(e, w);
    if e.mode != Structure {
      MulMonotone(1, Segments(|e.data|, Pow2(LengthIndicator(e.mode, v))), 4 + LengthIndicator(e.mode, v));
    }
  }

  /** An entry estimated to fit a symbol of its version is short enough for one segment. */
  lemma FittingIsPiece(e: Entry, version: Version, level: Level)
    requires GoodEntry(e) && version >= 1
    requires EstimateEntry(e, version) <= 8 * DataLength(version, level)
    ensures Piece(e, version)
    ensures |Encoded(e, version)| <= EstimateEntry(e, version)
    ensures e.mode != Kanji ==> |Encoded(e, version)| == EstimateEntry(e, version)
  {
    hide DataLength, Encodable, MaximumWords, EncodePiece, Encoded, Pow2, EstimateEntry;
    SmallIsPiece(e, version, version, level);
    EncodedParts(e, version);
    PieceLength(e, version);
  }

  lemma {:induction false} EncodedAllAppend(es: seq<Entry>, e: Entry, version: Version)
    requires Good(es) && GoodEntry(e)
    ensures Good(es + [e])
    ensures EncodedAll(es + [e], version) == EncodedAll(es, version) + Encoded(e, version)
  {
    hide GoodEntry, Encoded;
    if es == [] {
      assert [e][1..] == [] && [] + [e] == [e];
      assert EncodedAll([e], version) == Encoded(e, version) + [];
    } else {
      EncodedAllAppend(es[1..], e, version);
      assert (es + [e])[1..] == es[1..] + [e];
    }
  }

  lemma EncodedAllNext(es: seq<Entry>, i: nat, version: Version)
    requires Good(es) && i < |es|
    ensures EncodedAll(es[..i + 1], version) == EncodedAll(es[..i], version) + Encoded(es[i], version)
  {
    hide GoodEntry, Encoded, EncodedAll;
    EncodedAllAppend(es[..i], es[i], version);
    assert es[..i + 1] == es[..i] + [es[i]];
  }
}
