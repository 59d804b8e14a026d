/** The version that the estimates of qrinput.c lead to, and when it is the least one that would do. */
module QRVersions {
  import opened Bytes
  import opened Bits
  import opened BitStreams
  import opened QRSpec
  import opened QRSegments
  import opened QREncoder
  import opened QREstimates

  /** How many bytes so many bits need. */
  function BytesFor(bits: nat): nat {
    (bits + 7) / 8
  }

  /** The version the estimates lead to, from version prev on. */
  function EstimateFrom(es: seq<Entry>, level: Level, prev: Version): (r: Option<Version>)
    decreases VERSION_MAX - prev
  {
    var v := LeastVersion(BytesFor(EstimateAll(es, prev)), level, 1);
    if v.Some? && v.value > prev then EstimateFrom(es, level, v.value) else v
  }

  /** The first version, from a given one on, that holds its own encoding of the input. */
  function Settled(es: seq<Entry>, level: Level, version: Version): (r: Option<Version>)
    requires Good(es)
    decreases VERSION_MAX - version
  {
    var v := LeastVersion(BytesFor(|EncodedAll(es, version)|), level, 1);
    if v.None? then None
    else if v.value > version then Settled(es, level, v.value)
    else Some(version)
  }

  /** The version in which an input is encoded: raised by the estimate, then until it fits. */
  function FinalVersion(es: seq<Entry>, level: Level, version: Version): (r: Option<Version>)
    requires Good(es)
  {
    var e := EstimateFrom(es, level, 0);
    Settled(es, level, if e.Some? && e.value > version then e.value else version)
  }

  // ----- How the versions compare

  /** The versions that hold so many bits are those from the least one on. */
  lemma LeastVersionHolds(bits: nat, level: Level)
    ensures var r := LeastVersion(BytesFor(bits), level, 1);
      forall v: Version | v >= 1 :: bits <= 8 * DataLength(v, level) <==> r.Some? && r.value <= v
  {
    hide DataLength;
    LeastVersionFrom(BytesFor(bits), level, 1);
  }

  lemma {:induction false} LeastVersionFrom(size: nat, level: Level, from: nat)
    requires 1 <= from <= VERSION_MAX + 1
    ensures var r := LeastVersion(size, level, from);
      forall v: Version | v >= from :: size <= DataLength(v, level) <==> r.Some? && r.value <= v
    decreases VERSION_MAX + 1 - from
  {
    hide DataLength;
    if from <= VERSION_MAX {
      if size <= DataLength(from, level) {
        forall v: Version | v >= from ensures size <= DataLength(v, level) {
          CapacityMonotone(from, v, level);
        }
      } else {
        LeastVersionFrom(size, level, from + 1);
      }
    }
  }

  lemma {:induction false} EstimateInGroup(es: seq<Entry>, v: Version, w: Version)
    requires VersionGroup(v) == VersionGroup(w)
    ensures EstimateAll(es, v) == EstimateAll(es, w)
  {
    hide EstimateBits, Segments;
    if es != [] {
      EstimateInGroup(es[..|es| - 1], v, w);
    }
  }

  // ----- How the estimates compare

  lemma SegmentsAbove(size: nat, m: nat)
    requires size > 0 && m > 0
    ensures (Segments(size, m) - 1) * m < size <= Segments(size, m) * m
  {
    var k, r := (size + m - 1) / m, (size + m - 1) % m;
    assert size + m - 1 == k * m + r;
    assert (k - 1) * m == k * m - m;
  }

  lemma SegmentsFall(size: nat, m: nat, m': nat)
    requires size > 0 && 0 < m <= m'
    ensures Segments(size, m') <= Segments(size, m)
  {
    var k, k' := Segments(size, m), Segments(size, m');
    SegmentsAbove(size, m);
    SegmentsAbove(size, m');
    if k' > k {
      MulMonotone(k, k' - 1, m');
      MulMonotone(m, m', k);
    }
  }

  /** Headers grow with the version, but by less than the double. */
  lemma EntryInLarger(e: Entry, v: Version, w: Version)
    requires GoodEntry(e) && 1 <= v && VersionGroup(v) <= VersionGroup(w)
    ensures EstimateEntry(e, w) <= 2 * EstimateEntry(e, v)
  {
    hide Pow2, EstimateBits, Segments, Encodable;
    if e.mode != Structure {
      var n, l, l' := |e.data|, LengthIndicator(e.mode, v), LengthIndicator(e.mode, w);
      Pow2Monotone(l, l');
      SegmentsFall(n, Pow2(l), Pow2(l'));
      var k, k' := Segments(n, Pow2(l)), Segments(n, Pow2(l'));
      HeadersDouble(k, k', 4 + l, 4 + l');
    }
  }

  lemma HeadersDouble(k: nat, k': nat, h: nat, h': nat)
    requires k' <= k && h' <= 2 * h
    ensures k' * h' <= 2 * (k * h)
  {
    MulMonotone(k', k, h');
    MulMonotone(h', 2 * h, k);
  }

  /** In a smaller version, more headers may be counted, but they are less than a hundredth. */
  lemma EntryInSmaller(e: Entry, v: Version, w: Version)
    requires GoodEntry(e) && 1 <= w && VersionGroup(w) <= VersionGroup(v)
    ensures 100 * EstimateEntry(e, w) <= 101 * EstimateEntry(e, v)
  {
    hide Pow2, EstimateBits, Segments, Encodable;
    if e.mode != Structure {
      var n, l, l' := |e.data|, LengthIndicator(e.mode, w), LengthIndicator(e.mode, v);
      var k, k' := Segments(n, Pow2(l)), Segments(n, Pow2(l'));
      SegmentsAbove(n, Pow2(l));
      EstimateAtLeast(e.mode, n);
      MoreHeaders(e.mode, n, k, w);
      MulMonotone(1, k', 4 + l');
    }
  }

  lemma MoreHeaders(mode: Mode, n: nat, k: nat, w: Version)
    requires mode != Structure && k >= 1 && (k - 1) * Pow2(LengthIndicator(mode, w)) < n
    ensures 100 * (k * (4 + LengthIndicator(mode, w)))
         <= EstimateBits(mode, n) + 100 * (4 + LengthIndicator(mode, w))
  {
    hide Pow2, LengthIndicator, EstimateBits, SixfoldBits;
    var l := LengthIndicator(mode, w);
    FullSegment(mode, w);
    CharactersTake(mode, n);
    ManyHeaders(SixfoldBits(mode), Pow2(l), 4 + l, k - 1, n, EstimateBits(mode, n));
    assert k * (4 + l) == (k - 1) * (4 + l) + (4 + l);
  }

  lemma ManyHeaders(c: nat, m: nat, h: nat, i: nat, n: nat, bits: nat)
    requires i * m < n && 600 * h <= c * m && (n - 1) * c <= 6 * bits
    ensures 100 * (i * h) <= bits
  {
    MulMonotone(600 * h, c * m, i);
    MulMonotone(i * m, n - 1, c);
    Regroup(c, m, i);
    Regroup(600, h, i);
    assert 600 * h * i == 600 * (i * h);
  }

  /** Six times the bits a character takes, or a little less. */
  function SixfoldBits(mode: Mode): nat {
    match mode
    case Num => 20
    case An => 33
    case Eight => 48
    case Kanji => 39
    case Structure => 0
  }

  lemma CharactersTake(mode: Mode, n: nat)
    requires n > 0
    ensures (n - 1) * SixfoldBits(mode) <= 6 * EstimateBits(mode, n)
  {
    hide EstimateBits;
    EstimateAtLeast(mode, n);
  }

  lemma Regroup(c: nat, m: nat, i: nat)
    ensures c * m * i == i * m * c
  {
  }

  lemma FullSegment(mode: Mode, w: Version)
    requires mode != Structure
    ensures 600 * (4 + LengthIndicator(mode, w)) <= SixfoldBits(mode) * Pow2(LengthIndicator(mode, w))
  {
    assert Pow2(8) == 256 && Pow2(9) == 512 && Pow2(10) == 1024 && Pow2(11) == 2048;
    assert Pow2(12) == 4096 && Pow2(13) == 8192 && Pow2(14) == 16384 && Pow2(16) == 65536;
  }

  lemma {:induction false} EstimatesCompare(es: seq<Entry>, v: Version, w: Version)
    requires Good(es) && 1 <= v && 1 <= w
    ensures VersionGroup(v) <= VersionGroup(w) ==> EstimateAll(es, w) <= 2 * EstimateAll(es, v)
    ensures VersionGroup(w) <= VersionGroup(v) ==> 100 * EstimateAll(es, w) <= 101 * EstimateAll(es, v)
  {
    hide EstimateEntry, GoodEntry;
    if es != [] {
      var e := es[|es| - 1];
      EstimatesCompare(es[..|es| - 1], v, w);
      if VersionGroup(v) <= VersionGroup(w) {
        EntryInLarger(e, v, w);
      }
      if VersionGroup(w) <= VersionGroup(v) {
        EntryInSmaller(e, v, w);
      }
    }
  }

  lemma CapacityRatios(level: Level)
    ensures 101 * DataLength(39, level) <= 100 * DataLength(40, level)
    ensures 2 * DataLength(26, level) <= DataLength(40, level)
  {
  }

  // ----- The version the estimates lead to

  /** A version that is passed over although it would do: version 26 does not hold the estimate of the smallest
      versions, which counts more segments, and the estimate of the largest versions, which has longer length
      fields, is just too long for this one. */
  predicate Skipped(es: seq<Entry>, level: Level, w: Version) {
    && 10 <= w <= 26
    && 8 * DataLength(26, level) < EstimateAll(es, 1)
    && EstimateAll(es, w) <= 8 * DataLength(w, level) < EstimateAll(es, 27)
  }

  lemma EstimateRests(es: seq<Entry>, level: Level, prev: Version)
    ensures var v := LeastVersion(BytesFor(EstimateAll(es, prev)), level, 1);
      v.Some? && v.value > prev && VersionGroup(v.value) == VersionGroup(prev) ==>
        EstimateFrom(es, level, prev) == v
  {
    hide EstimateAll, LeastVersion;
    var v := LeastVersion(BytesFor(EstimateAll(es, prev)), level, 1);
    if v.Some? && v.value > prev && VersionGroup(v.value) == VersionGroup(prev) {
      EstimateInGroup(es, prev, v.value);
      assert EstimateFrom(es, level, v.value) == v;
    }
  }

  /** The estimates of the smallest versions lead to a version; if that is a larger one, the estimates of its
      group to another; and those of the largest versions to the last. */
  lemma EstimateFromIs(es: seq<Entry>, level: Level)
    ensures var v1 := LeastVersion(BytesFor(EstimateAll(es, 1)), level, 1);
      var v2 := LeastVersion(BytesFor(EstimateAll(es, 10)), level, 1);
      var v3 := LeastVersion(BytesFor(EstimateAll(es, 27)), level, 1);
      EstimateFrom(es, level, 0) ==
        if v1.None? || v1.value <= 9 then v1
        else if v1.value <= 26 && (v2.None? || v2.value <= 26) then v2
        else v3
  {
    hide EstimateAll, LeastVersion;
    var v1 := LeastVersion(BytesFor(EstimateAll(es, 1)), level, 1);
    var v2 := LeastVersion(BytesFor(EstimateAll(es, 10)), level, 1);
    EstimateInGroup(es, 0, 1);
    EstimateRests(es, level, 0);
    if v1.Some? && v1.value > 9 {
      EstimateInGroup(es, v1.value, if v1.value <= 26 then 10 else 27);
      EstimateRests(es, level, v1.value);
      assert EstimateFrom(es, level, 0) == EstimateFrom(es, level, v1.value);
      if v1.value <= 26 && v2.Some? && v2.value > 26 {
        EstimateInGroup(es, v2.value, 27);
        EstimateRests(es, level, v2.value);
        assert EstimateFrom(es, level, v1.value) == EstimateFrom(es, level, v2.value);
      }
    }
  }

  /** If a version that is not the largest would do, the estimates lead to one, and not to a larger one unless
      this one is passed over. */
  lemma EstimateFromFits(es: seq<Entry>, level: Level, w: Version)
    requires Good(es) && 1 <= w < VERSION_MAX && EstimateAll(es, w) <= 8 * DataLength(w, level)
    ensures var e := EstimateFrom(es, level, 0); e.Some? && (e.value <= w <==> !Skipped(es, level, w))
  {
    hide EstimateAll, DataLength, LeastVersion, EstimateFrom, Good;
    EstimateFromIs(es, level);
    LeastVersionHolds(EstimateAll(es, 1), level);
    LeastVersionHolds(EstimateAll(es, 10), level);
    LeastVersionHolds(EstimateAll(es, 27), level);
    EstimateInGroup(es, w, if w <= 9 then 1 else if w <= 26 then 10 else 27);
    EstimatesCompare(es, w, 1);
    EstimatesCompare(es, w, 10);
    EstimatesCompare(es, w, 27);
    CapacityRatios(level);
    CapacityMonotone(w, if w <= 26 then 26 else 39, level);
    assert DataLength(w, level) <= DataLength(if w <= 26 then 26 else 39, level);
  }

  /** The version the estimates lead to holds what was estimated, for it or for a larger one. */
  lemma {:induction false} EstimateHolds(es: seq<Entry>, level: Level, prev: Version) returns (last: Version)
    requires EstimateFrom(es, level, prev).Some?
    ensures var e := EstimateFrom(es, level, prev).value;
      1 <= e <= last && EstimateAll(es, last) <= 8 * DataLength(e, level)
    decreases VERSION_MAX - prev
  {
    hide EstimateAll, DataLength;
    var v := LeastVersion(BytesFor(EstimateAll(es, prev)), level, 1);
    LeastVersionHolds(EstimateAll(es, prev), level);
    if v.value > prev {
      last := EstimateHolds(es, level, v.value);
    } else {
      last := prev;
    }
  }

  // ----- The version the encoded bits lead to

  /** Segments that are short enough for a version are so for larger ones, and take no fewer bits there. */
  lemma PieceInLarger(e: Entry, v: Version, w: Version)
    requires Piece(e, v) && VersionGroup(v) <= VersionGroup(w)
    ensures GoodEntry(e) && Piece(e, w) && |Encoded(e, v)| <= |Encoded(e, w)|
  {
    hide Encodable, EncodePiece, Encoded, MaximumWords;
    WordsInGroup(e.mode, v);
    WordsInGroup(e.mode, w);
    PieceIsEntry(e, v);
    EncodedParts(e, v);
    EncodedParts(e, w);
    PieceSize(e, v);
    PieceSize(e, w);
  }

  lemma {:induction false} EncodedInLarger(es: seq<Entry>, v: Version, w: Version)
    requires AllPieces(es, v) && VersionGroup(v) <= VersionGroup(w)
    ensures Good(es) && AllPieces(es, w) && |EncodedAll(es, v)| <= |EncodedAll(es, w)|
  {
    hide GoodEntry, Piece, Encoded;
    if es != [] {
      PieceInLarger(es[0], v, w);
      EncodedInLarger(es[1..], v, w);
    }
  }

  lemma {:induction false} SettledAtMost(es: seq<Entry>, level: Level, v: Version, w: Version)
    requires Good(es) && AllPieces(es, v) && 1 <= v <= w && |EncodedAll(es, w)| <= 8 * DataLength(w, level)
    ensures Settled(es, level, v).Some? && Settled(es, level, v).value <= w
    decreases w - v
  {
    hide EncodedAll, DataLength, Good, AllPieces, LeastVersion;
    EncodedInLarger(es, v, w);
    LeastVersionHolds(|EncodedAll(es, v)|, level);
    assert |EncodedAll(es, v)| <= 8 * DataLength(w, level);
    var n := LeastVersion(BytesFor(|EncodedAll(es, v)|), level, 1).value;
    if n > v {
      EncodedInLarger(es, v, n);
      SettledAtMost(es, level, n, w);
    }
  }

  lemma {:induction false} SettledRises(es: seq<Entry>, level: Level, v: Version)
    requires Good(es) && Settled(es, level, v).Some?
    ensures v <= Settled(es, level, v).value
    decreases VERSION_MAX - v
  {
    hide EncodedAll, LeastVersion;
    var n := LeastVersion(BytesFor(|EncodedAll(es, v)|), level, 1);
    if n.value > v {
      SettledRises(es, level, n.value);
    }
  }

  /** An input whose estimate, for this or larger versions, is no more than a symbol holds. */
  lemma {:induction false} SmallInput(es: seq<Entry>, v: Version, w: Version, level: Level)
    requires Good(es) && 1 <= w && 1 <= v && VersionGroup(w) <= VersionGroup(v)
    requires EstimateAll(es, v) <= 8 * DataLength(w, level)
    ensures AllPieces(es, w) && |EncodedAll(es, w)| <= EstimateAll(es, v)
  {
    hide EstimateEntry, DataLength, Encoded, GoodEntry, Piece;
    if es != [] {
      var front, e := es[..|es| - 1], es[|es| - 1];
      SmallInput(front, v, w, level);
      SmallIsPiece(e, v, w, level);
      EncodedAllNext(es, |es| - 1, w);
      assert es[..|es|] == es && es == front + [e];
    }
  }

  /** Of the versions from the requested one on that are estimated to hold an input, none is smaller than the
      version that is used, but for those that are passed over. */
  lemma FinalVersionLeast(es: seq<Entry>, level: Level, requested: Version, w: Version)
    requires Good(es) && 1 <= w && requested <= w && EstimateAll(es, w) <= 8 * DataLength(w, level)
    ensures var f := FinalVersion(es, level, requested);
      && (w < VERSION_MAX ==> f.Some?)
      && (f.Some? ==> (f.value <= w <==> !Skipped(es, level, w)))
  {
    hide EstimateAll, DataLength, EstimateFrom, Settled, Good, EncodedAll, AllPieces;
    if w < VERSION_MAX {
      EstimateFromFits(es, level, w);
      var last := EstimateHolds(es, level, 0);
      var e := EstimateFrom(es, level, 0).value;
      SmallInput(es, last, e, level);
      SmallInput(es, w, w, level);
      var start := if e > requested then e else requested;
      EncodedInLarger(es, e, start);
      if e <= w {
        SettledAtMost(es, level, start, w);
      } else {
        SettledAtMost(es, level, e, e);
        SettledRises(es, level, e);
      }
    }
  }

  /** Kanji for which the estimate does not count a segment too many. */
  predicate ShortKanji(es: seq<Entry>) {
    forall i | 0 <= i < |es| :: es[i].mode == Kanji ==> |es[i].data| <= 256
  }

  lemma EntryIsEstimate(e: Entry, w: Version, level: Level)
    requires GoodEntry(e) && w >= 1 && (e.mode == Kanji ==> |e.data| <= 256)
    requires |Encoded(e, w)| <= 8 * DataLength(w, level)
    ensures |Encoded(e, w)| == EstimateEntry(e, w)
  {
    hide DataLength, Encodable, EncodePiece, Encoded, Pow2, EstimateBits, EstimateEntry, MaximumWords;
    GroupCapacity(w, level);
    EncodedParts(e, w);
    WordsInGroup(e.mode, w);
    var words := MaximumWords(e.mode, w);
    if words != 0 && |e.data| > words {
      PieceSize(Entry(e.mode, e.data[..words]), w);
      EstimateAtLeast(e.mode, words);
      assert false;
    }
    PieceLength(e, w);
  }

  /** But for long Kanji, the bits that fit a symbol are as many as was estimated. */
  lemma {:induction false} FittingIsEstimated(es: seq<Entry>, w: Version, level: Level)
    requires Good(es) && ShortKanji(es) && w >= 1 && |EncodedAll(es, w)| <= 8 * DataLength(w, level)
    ensures |EncodedAll(es, w)| == EstimateAll(es, w)
  {
    hide EstimateEntry, DataLength, Encoded, GoodEntry;
    if es != [] {
      var front, e := es[..|es| - 1], es[|es| - 1];
      EncodedAllNext(es, |es| - 1, w);
      assert es[..|es|] == es && es == front + [e];
      FittingIsEstimated(front, w, level);
      EntryIsEstimate(e, w, level);
    }
  }

  /** The smaller versions that were asked for, or not excluded, do not hold the input: not what is estimated, and
      without long Kanji not its bits; but for the versions that are passed over. */
  ghost predicate LeastFor(es: seq<Entry>, level: Level, requested: Version, found: Version)
    requires Good(es)
  {
    forall w: Version | 1 <= w && requested <= w < found ::
      && (EstimateAll(es, w) <= 8 * DataLength(w, level) <==> Skipped(es, level, w))
      && (ShortKanji(es) ==> (|EncodedAll(es, w)| <= 8 * DataLength(w, level) <==> Skipped(es, level, w)))
  }

  lemma FinalVersionIsLeast(es: seq<Entry>, level: Level, requested: Version)
    requires Good(es)
    ensures var f := FinalVersion(es, level, requested); f.Some? ==> LeastFor(es, level, requested, f.value)
  {
    hide EstimateAll, DataLength, FinalVersion, Good, EncodedAll, ShortKanji, AllPieces;
    var f := FinalVersion(es, level, requested);
    if f.Some? {
      forall w: Version | 1 <= w && requested <= w < f.value
        ensures EstimateAll(es, w) <= 8 * DataLength(w, level) <==> Skipped(es, level, w)
        ensures ShortKanji(es) ==> (|EncodedAll(es, w)| <= 8 * DataLength(w, level) <==> Skipped(es, level, w))
      {
        if EstimateAll(es, w) <= 8 * DataLength(w, level) {
          FinalVersionLeast(es, level, requested, w);
          SmallInput(es, w, w, level);
        }
        if ShortKanji(es) && |EncodedAll(es, w)| <= 8 * DataLength(w, level) {
          FittingIsEstimated(es, w, level);
        }
      }
    }
  }

  /** No version is passed over if every entry is short enough for one segment of the smallest versions. */
  lemma NoneSkipped(es: seq<Entry>, level: Level, w: Version)
    requires Good(es) && forall i | 0 <= i < |es| :: |es[i].data| <= 256
    ensures !Skipped(es, level, w)
  {
    hide EstimateAll, DataLength, Good;
    if 10 <= w <= 26 {
      OneSegmentEach(es, 1, w);
      CapacityMonotone(w, 26, level);
    }
  }

  /** So that the version used for such an input is the least one that holds it. */
  lemma LeastForShort(es: seq<Entry>, level: Level, requested: Version, found: Version)
    requires Good(es) && (forall i | 0 <= i < |es| :: |es[i].data| <= 256)
    requires LeastFor(es, level, requested, found)
    ensures forall w: Version | 1 <= w && requested <= w < found ::
      8 * DataLength(w, level) < EstimateAll(es, w) && 8 * DataLength(w, level) < |EncodedAll(es, w)|
  {
    hide EstimateAll, EncodedAll, DataLength, Good, Skipped;
    forall w: Version | 1 <= w && requested <= w < found
      ensures !Skipped(es, level, w)
    {
      NoneSkipped(es, level, w);
    }
  }

  lemma {:induction false} OneSegmentEach(es: seq<Entry>, v: Version, w: Version)
    requires Good(es) && 1 <= v <= w && forall i | 0 <= i < |es| :: |es[i].data| <= 256
    ensures EstimateAll(es, v) <= EstimateAll(es, w)
  {
    hide EstimateEntry, GoodEntry;
    if es != [] {
      OneSegmentEach(es[..|es| - 1], v, w);
      OneSegment(es[|es| - 1], v, w);
    }
  }

  lemma OneSegment(e: Entry, v: Version, w: Version)
    requires GoodEntry(e) && 1 <= v <= w && |e.data| <= 256
    ensures EstimateEntry(e, v) <= EstimateEntry(e, w)
  {
    hide Pow2, EstimateBits, Encodable;
    if e.mode != Structure {
      Pow2Monotone(8, LengthIndicator(e.mode, v));
      Pow2Monotone(8, LengthIndicator(e.mode, w));
      SmallPowers();
    }
  }

  lemma OneEntry(e: Entry, v: Version)
    requires GoodEntry(e)
    ensures EstimateAll([e], v) == EstimateEntry(e, v) && EncodedAll([e], v) == Encoded(e, v)
  {
    hide EstimateEntry, GoodEntry, Encoded;
    assert [e][..0] == [] && [e][1..] == [];
    assert EstimateAll([], v) == 0 && EncodedAll([], v) == [];
  }

  /** A version that is passed over: 1990 alphanumeric characters fill version 26 of level L to the last bit, and
      are put into version 27. */
  lemma VersionSkipped(data: Bytes)
    requires |data| == 1990 && Encodable(An, data)
    ensures var es := [Entry(An, data)];
      |EncodedAll(es, 26)| == 8 * DataLength(26, L) && FinalVersion(es, L, 0) == Some(27)
  {
    hide Encodable, FinalVersion, EncodedAll, Encoded, EstimateAll, EstimateEntry, DataLength;
    var e := Entry(An, data);
    AnEstimates(data);
    OneEntry(e, 1);
    OneEntry(e, 26);
    OneEntry(e, 27);
    FittingIsPiece(e, 26, L);
    FinalVersionLeast([e], L, 0, 26);
    FinalVersionLeast([e], L, 0, 27);
  }

  lemma AnEstimates(data: Bytes)
    requires |data| == 1990
    ensures var e := Entry(An, data);
      EstimateEntry(e, 1) == 10997 && EstimateEntry(e, 26) == 10960 && EstimateEntry(e, 27) == 10962
    ensures 8 * DataLength(26, L) == 10960 && 8 * DataLength(27, L) == 11744
  {
    assert Pow2(9) == 512 && Pow2(11) == 2048 && Pow2(12) == 4096 && Pow2(13) == 8192;
  }

  /** In the smallest versions, bytes take twelve bits more for each 255 of them. */
  lemma {:induction false} ManyBytes(data: Bytes, v: Version)
    requires data != [] && VersionGroup(v) == 0
    ensures 255 * |Encoded(Entry(Eight, data), v)| >= 2052 * |data|
    decreases |data|
  {
    hide Encoded, EncodePiece;
    var e := Entry(Eight, data);
    WordsInGroup(Eight, v);
    EncodedParts(e, v);
    if |data| > 255 {
      PieceSize(Entry(Eight, data[..255]), v);
      ManyBytes(data[255..], v);
    } else {
      PieceSize(e, v);
    }
  }

  /** The largest symbol may be refused: 2953 bytes have room in version 40 of level L, but neither their estimate
      nor their bits for the smallest versions, so that they are encoded only when a larger version is asked for. */
  lemma LargestRefused(data: Bytes)
    requires |data| == 2953
    ensures var es := [Entry(Eight, data)];
      && |EncodedAll(es, 40)| <= 8 * DataLength(40, L)
      && FinalVersion(es, L, 0) == None && FinalVersion(es, L, 40) == Some(40)
  {
    hide EncodedAll, Encoded, EstimateAll, DataLength, LeastVersion, VersionGroup;
    var e := Entry(Eight, data);
    LargestCapacity();
    OneEntry(e, 1);
    OneEntry(e, 0);
    OneEntry(e, 40);
    EightEstimates(data);
    LeastVersionHolds(EstimateAll([e], 1), L);
    ManyBytes(data, 0);
    LeastVersionHolds(|EncodedAll([e], 0)|, L);
    EstimateInGroup([e], 0, 1);
    FittingIsPiece(e, 40, L);
    LeastVersionHolds(|EncodedAll([e], 40)|, L);
  }

  lemma LargestCapacity()
    ensures 8 * DataLength(40, L) == 23648
    ensures VersionGroup(0) == 0 && VersionGroup(1) == 0
  {
  }

  lemma EightEstimates(data: Bytes)
    requires |data| == 2953
    ensures EstimateEntry(Entry(Eight, data), 1) > 23648 && EstimateEntry(Entry(Eight, data), 40) == 23644
  {
  }
}
