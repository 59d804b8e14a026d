/** From a string to a finished QR symbol, and back: QRcode_encodeString with its automatic mask. */
module QRString {
  import opened Bytes
  import opened Bits
  import opened BitStreams
  import opened QRSpec
  import opened QRSegments
  import opened QREncoder
  import opened QREstimates
  import opened QRVersions
  import opened QRInputs
  import opened Placement
  import opened QRSymbol
  import opened QRCode
  import opened QRFrame
  import opened QRFrameCount
  import opened MaskChoice
  import opened Bch
  import opened QRReader
  import MaskScore
  import Segmentation

  // ----- The finished symbol

  lemma SmallModules(codes: Bytes, remainder: nat)
    ensures forall m | 0 <= m < |Modules(codes, remainder)| :: Modules(codes, remainder)[m] < 4
  {
    hide BitsHigh;
  }

  lemma FilledReserved(before: seq<Byte>, now: seq<Byte>, trail: seq<nat>, values: Bytes)
    requires Filled(before, now, trail, values)
    requires forall i | i in trail :: i < |before| && !Reserved(before, i)
    requires forall m | 0 <= m < |values| :: values[m] < 4
    ensures forall k: nat | k < |now| :: Reserved(now, k) == Reserved(before, k)
  {
    forall k: nat | k < |now| ensures Reserved(now, k) == Reserved(before, k) {
      if k in trail[..|values|] {
        var m :| 0 <= m < |values| && trail[m] == k;
        assert trail[m] in trail;
      }
    }
  }

  /** Placing the data leaves the same modules reserved. */
  lemma ReservedStays(now: seq<Byte>, version: Version, level: Level, bytes: Bytes)
    requires version >= 1 && EmptyFrameSize(NewFrame(version), version)
    requires Holds(NewFrame(version), now, version, level, bytes)
    ensures forall k: nat | k < |now| :: Reserved(now, k) == Reserved(NewFrame(version), k)
  {
    hide Trail, Modules, RawCode.Interleaved, AllCodewords, CapacityOf, GetEccSpec, JoinedData, RawCode.Layout,
      NewFrame, Filled;
    WidthOf(version);
    var w, s, before := CapacityOf(version).width, GetEccSpec(version, level), NewFrame(version);
    TrailIsEveryFreeModule(before, w);
    var blocks: seq<RawCode.Block> :|
      && |blocks| == s.blocks1 + s.blocks2
      && RawCode.Layout(blocks, s.blocks1, s.dataCodes1, s.eccCodes)
      && JoinedData(blocks) == bytes && AllCodewords(blocks, s.eccCodes)
      && Filled(before, now, Trail(before, w, First()),
                Modules(RawCode.Interleaved(blocks, s.blocks1, s.dataCodes1, s.eccCodes),
                        CapacityOf(version).remainder));
    var codes := RawCode.Interleaved(blocks, s.blocks1, s.dataCodes1, s.eccCodes);
    SmallModules(codes, CapacityOf(version).remainder);
    FilledReserved(before, now, Trail(before, w, First()), Modules(codes, CapacityOf(version).remainder));
  }

  /** Placing the data leaves the places of the format as they were. */
  lemma FormatStays(now: seq<Byte>, version: Version, level: Level, bytes: Bytes)
    requires version >= 1 && EmptyFrameSize(NewFrame(version), version)
    requires Holds(NewFrame(version), now, version, level, bytes)
    ensures FormatReserved(now, CapacityOf(version).width)
  {
    hide Trail, Modules, RawCode.Interleaved, AllCodewords, CapacityOf, GetEccSpec, JoinedData, FormatPlace,
      RawCode.Layout, NewFrame, Drawn, Shows;
    WidthOf(version);
    var w := CapacityOf(version).width;
    var before := NewFrame(version);
    NewFrameShows(version);
    DrawnFormat(version, before);
    var trail := Trail(before, w, First());
    TrailIsEveryFreeModule(before, w);
    forall i: nat, c: bool | i < 15
      ensures now[FormatPlace(w, i, c)] == before[FormatPlace(w, i, c)]
    {
      assert Reserved(before, FormatPlace(w, i, c));
      assert FormatPlace(w, i, c) !in trail;
    }
  }

  /** A finished symbol: either copy of its format names the level and the mask, and who takes them from there
      reads these entries from the colours of its modules. */
  predicate ReadsAs(symbol: seq<Byte>, version: Version, level: Level, m: nat, entries: seq<Entry>)
    requires Good(entries)
  {
    && EmptyFrameSize(symbol, version)
    && SymbolWidth(CapacityOf(version).width)
    && ColoursFor(ColoursOf(symbol), version)
    && forall copy: bool ::
         && FormatSeen(ColoursOf(symbol), CapacityOf(version).width, copy) == Format(level, m)
         && Recovers(Scan(ColoursOf(symbol), version, copy), entries)
  }

  lemma MaskedReadsAs(frame: seq<Byte>, version: Version, level: Level, m: nat, entries: seq<Entry>)
    requires EmptyFrameSize(frame, version) && FormatReserved(frame, CapacityOf(version).width) && m < MASK_NUM
    requires |NewFrame(version)| == |frame|
    requires forall k: nat | k < |frame| :: Reserved(frame, k) == Reserved(NewFrame(version), k)
    requires Good(entries) && Recovers(ReadSymbol(frame, version, level), entries)
    ensures |FormatInfo(level)| == MASK_NUM
    ensures ReadsAs(Candidate(frame, CapacityOf(version).width, FormatInfo(level), m), version, level, m, entries)
  {
    hide CapacityOf, ReadSymbol, Recovers, Candidate, Masked, Scan, FormatSeen, NewFrame, FormatInfo;
    EightWords(level);
    WidthOf(version);
    var w := CapacityOf(version).width;
    var symbol := Candidate(frame, w, FormatInfo(level), m);
    Unmasked(frame, w, FormatInfo(level), m);
    MaskTwice(m, symbol, w);
    SameModulesSameData(frame, Masked(m, symbol, w), version, level);
    forall copy: bool
      ensures FormatSeen(ColoursOf(symbol), w, copy) == Format(level, m)
      ensures Recovers(Scan(ColoursOf(symbol), version, copy), entries)
    {
      CandidateFormat(frame, w, level, m, copy);
      ScanIs(symbol, version, level, m, copy);
    }
  }

  lemma CandidateFormat(frame: seq<Byte>, w: nat, level: Level, m: nat, copy: bool)
    requires FormatReserved(frame, w) && m < MASK_NUM && |FormatInfo(level)| == MASK_NUM
    ensures FormatSeen(ColoursOf(Candidate(frame, w, FormatInfo(level), m)), w, copy) == Format(level, m)
  {
    hide FormatPlace, FormatModule, WithBits, Masked, FormatInfo, FormatOf, FormatWord;
    var format := FormatInfo(level)[m];
    FormatWords(level, m);
    WithBitsMeans(Masked(m, frame, w), w, format, 15);
    FormatRead(Candidate(frame, w, FormatInfo(level), m), w, format, copy, 0);
    WordSize();
    assert Pow2(0) == 1;
  }

  /** QRcode_encodeMask with the automatic choice of the mask. */
  method EncodeMask(input: QRInput) returns (symbol: array?<Byte>, ghost mask: nat)
    requires input.Valid()
    modifies input`version
    ensures old(input.version) <= input.version
    ensures symbol == null <==> FinalVersion(input.entries, input.level, old(input.version)) == None
    ensures symbol == null ==>
              forall v: Version | v >= 1 :: 8 * DataLength(v, input.level) < |EncodedAll(input.entries, input.version)|
    ensures symbol != null ==> FinalVersion(input.entries, input.level, old(input.version)) == Some(input.version)
    ensures symbol != null ==> LeastFor(input.entries, input.level, old(input.version), input.version)
    ensures symbol != null ==> mask < MASK_NUM && ReadsAs(symbol[..], input.version, input.level, mask, input.entries)
  {
    hide Holds, CapacityOf, ReadSymbol, Recovers, FormatReserved, Candidate, CandidateScore, FinalVersion, DataLength,
      EncodedAll, NewFrame, FormatInfo, LeastFor, ReadsAs;
    symbol, mask := null, 0;
    var frame := EncodeFrame(input);
    if frame == null {
      return;
    }
    ghost var bytes: Bytes :| Holds(NewFrame(input.version), frame[..], input.version, input.level, bytes);
    ghost var filled := frame[..];
    FormatStays(filled, input.version, input.level, bytes);
    ReservedStays(filled, input.version, input.level, bytes);
    var width := CapacityOf(input.version).width;
    WidthOf(input.version);
    EightWords(input.level);
    symbol, mask := MaskMask(width, frame, FormatInfo(input.level));
    MaskedReadsAs(filled, input.version, input.level, mask, input.entries);
  }

  lemma EightWords(level: Level)
    ensures |FormatInfo(level)| == MASK_NUM
  {
  }

  /** The string as it is encoded: as it is, or in capitals where case does not matter. */
  function Text(s: Bytes, hint: Mode, caseSensitive: bool): Bytes {
    if caseSensitive then s else Segmentation.Upper(s, hint)
  }

  lemma {:induction false} EntriesWithin(es: seq<Entry>)
    ensures forall i | 0 <= i < |es| :: |es[i].data| <= |Segmentation.Joined(es)|
  {
    if es != [] {
      EntriesWithin(es[1..]);
    }
  }

  /**
   * QRcode_encodeString, for every string. There is a symbol unless the string is empty, the hint is
   * neither 8 bit nor Kanji, or the segments of the string are too long for every symbol. Who takes level
   * and mask from either copy of the format, and follows the path, reads the string from the colours of the
   * modules, exactly if no Kanji in it has a small trail byte.
   */
  method EncodeString(s: Bytes, version: Version, level: Level, hint: Mode, caseSensitive: bool)
    returns (symbol: array?<Byte>, ghost mask: nat, ghost found: Version)
    requires Segmentation.CString(s)
    ensures (hint != Eight && hint != Kanji) || s == [] ==> symbol == null
    ensures var t := Text(s, hint, caseSensitive);
      (hint == Eight || hint == Kanji) && s != [] ==>
        && Segmentation.CString(t)
        && var es := Segmentation.Cut(t, version, hint);
        && Good(es)
        && (symbol == null <==> FinalVersion(es, level, version) == None)
        && (symbol == null ==> forall v: Version | v >= 1 :: 8 * DataLength(v, level) < |EncodedAll(es, found)|)
        && (symbol != null ==> FinalVersion(es, level, version) == Some(found) && LeastFor(es, level, version, found))
        && (symbol != null && |s| <= 256 ==>
              forall w: Version | 1 <= w && version <= w < found :: 8 * DataLength(w, level) < |EncodedAll(es, w)|)
    ensures symbol != null ==>
      && version <= found
      && SymbolWidth(CapacityOf(found).width)
      && ColoursFor(ColoursOf(symbol[..]), found)
      && forall copy: bool ::
           && FormatSeen(ColoursOf(symbol[..]), CapacityOf(found).width, copy) == Format(level, mask)
           && var t, r := Text(s, hint, caseSensitive), Scan(ColoursOf(symbol[..]), found, copy);
           && r.Some? && |Segmentation.Joined(r.value)| == |t|
           && (Segmentation.Joined(r.value) == t <==> Segmentation.KanjiTrails(s, hint))
  {
    hide CapacityOf, ReadSymbol, Tagged, AsRead, AllClear, GoodEntry, Masked, FinalVersion, DataLength, EncodedAll,
      LeastFor, Scan, FormatSeen, NewFrame;
    hide Segmentation.Joined, Segmentation.Upper, Segmentation.Cut, Segmentation.KanjiTrails;
    symbol, mask, found := null, 0, version;
    if hint != Eight && hint != Kanji {
      return;
    }
    var input := new QRInput(version, level);
    var ok := Segmentation.SplitStringToQRInput(s, input, hint, caseSensitive);
    if !ok {
      return;
    }
    ghost var t := Text(s, hint, caseSensitive);
    Segmentation.UpperTrails(s, hint);
    symbol, mask := EncodeMask(input);
    found := input.version;
    if symbol != null {
      Segmentation.CutClear(t, version, hint);
      if |s| <= 256 {
        EntriesWithin(input.entries);
        LeastForShort(input.entries, level, version, found);
      }
      forall copy: bool
        ensures var r := Scan(ColoursOf(symbol[..]), found, copy);
          && r.Some? && |Segmentation.Joined(r.value)| == |t|
          && (Segmentation.Joined(r.value) == t <==> Segmentation.KanjiTrails(s, hint))
      {
        Segmentation.RecoveredData(input.entries, Scan(ColoursOf(symbol[..]), found, copy).value);
      }
    }
  }
}
