/** The whole way of QRcode_encodeMask, from the input to the unmasked frame, and back. */
module QRCode {
  import opened Bytes
  import opened BitStreams
  import opened QRSpec
  import opened QRSegments
  import opened QREncoder
  import opened QREstimates
  import opened QRVersions
  import opened QRInputs
  import opened Placement
  import opened RawCode
  import opened QRSymbol
  import opened QRFrame
  import opened QRFrameCount

  lemma WidthOf(version: Version)
    ensures version >= 1 ==> CapacityOf(version).width == 4 * version + 17
    ensures version >= 1 ==> SymbolWidth(CapacityOf(version).width) && CapacityOf(version).width <= 177
  {
  }

  // ----- The reader

  lemma TrailOnFrame(frame: seq<Byte>, w: nat)
    requires SymbolWidth(w) && |frame| == w * w
    ensures forall m | 0 <= m < |Trail(frame, w, First())| :: Trail(frame, w, First())[m] < |frame|
  {
    hide Trail;
    TrailIsEveryFreeModule(frame, w);
    var trail := Trail(frame, w, First());
    forall m | 0 <= m < |trail| ensures trail[m] < |frame| {
      assert trail[m] in trail;
    }
  }

  /** Where data byte k of block r is sent, for n blocks of which the first b1 have dl bytes and the others one more. */
  function DataPlace(n: nat, b1: nat, dl: nat, r: nat, k: nat): nat
    requires k >= dl ==> r >= b1
  {
    MulMonotone(0, if k < dl then k else dl, n);
    if k < dl then k * n + r else dl * n + (r - b1)
  }

  function ReadByte(frame: seq<Byte>, trail: seq<nat>, c: nat): (b: Byte)
    requires forall m | 0 <= m < |trail| :: trail[m] < |frame|
  {
    if 8 * c + 8 <= |trail| then
      CodeIsByte(frame, trail, c);
      ReadCode(frame, trail, c)
    else 0
  }

  lemma CodeIsByte(frame: seq<Byte>, trail: seq<nat>, c: nat)
    requires 8 * c + 8 <= |trail|
    requires forall m | 0 <= m < |trail| :: trail[m] < |frame|
    ensures ReadCode(frame, trail, c) < 256
  {
    assert Pow2(8) == 256;
  }

  function ReadBlock(frame: seq<Byte>, trail: seq<nat>, n: nat, b1: nat, dl: nat, r: nat): (data: Bytes)
    requires forall m | 0 <= m < |trail| :: trail[m] < |frame|
  {
    seq(if r < b1 then dl else dl + 1,
        k requires 0 <= k < (if r < b1 then dl else dl + 1) => ReadByte(frame, trail, DataPlace(n, b1, dl, r, k)))
  }

  /** The data of the first blocks, in their order. */
  function ReadBlocks(frame: seq<Byte>, trail: seq<nat>, n: nat, b1: nat, dl: nat, r: nat): (data: Bytes)
    requires forall m | 0 <= m < |trail| :: trail[m] < |frame|
  {
    if r == 0 then [] else ReadBlocks(frame, trail, n, b1, dl, r - 1) + ReadBlock(frame, trail, n, b1, dl, r - 1)
  }

  /** A reader without error correction: along the path, block by block, then segment by segment. */
  function ReadSymbol(frame: seq<Byte>, version: Version, level: Level): Option<seq<Entry>>
    requires version >= 1 && |frame| == CapacityOf(version).width * CapacityOf(version).width
  {
    WidthOf(version);
    TrailOnFrame(frame, CapacityOf(version).width);
    var trail := Trail(frame, CapacityOf(version).width, First());
    var spec := GetEccSpec(version, level);
    var n := spec.blocks1 + spec.blocks2;
    DecodeStream(BitsOfBytes(ReadBlocks(frame, trail, n, spec.blocks1, spec.dataCodes1, n)), version)
  }

  // ----- Reading is the inverse of writing

  lemma SameDataPlace(blocks: seq<Block>, b1: nat, dl: nat, el: nat, r: nat, k: nat)
    requires Layout(blocks, b1, dl, el) && r < |blocks| && k < |blocks[r].data|
    ensures PlaceOf(blocks, b1, dl, el, r, k) == DataPlace(|blocks|, b1, dl, r, k)
  {
  }

  lemma ReadBlockIs(before: seq<Byte>, now: seq<Byte>, w: nat, blocks: seq<Block>, b1: nat, dl: nat, el: nat,
                    remainder: nat, r: nat)
    requires SymbolWidth(w) && |before| == |now| == w * w && Layout(blocks, b1, dl, el)
    requires Filled(before, now, Trail(before, w, First()), Modules(Interleaved(blocks, b1, dl, el), remainder))
    requires r < |blocks|
    ensures forall m | 0 <= m < |Trail(now, w, First())| :: Trail(now, w, First())[m] < |now|
    ensures ReadBlock(now, Trail(now, w, First()), |blocks|, b1, dl, r) == blocks[r].data
  {
    hide Trail, Filled, Modules, Interleaved, ReadCode, PlaceOf, DataPlace;
    TrailOnFrame(now, w);
    var read := ReadBlock(now, Trail(now, w, First()), |blocks|, b1, dl, r);
    forall k | 0 <= k < |read| ensures read[k] == blocks[r].data[k] {
      SameDataPlace(blocks, b1, dl, el, r, k);
      SymbolReadsBack(before, now, w, blocks, b1, dl, el, remainder, r, k);
    }
  }

  lemma {:induction false} ReadBlocksAre(before: seq<Byte>, now: seq<Byte>, w: nat, blocks: seq<Block>, b1: nat,
                                         dl: nat, el: nat,
                                         remainder: nat, r: nat)
    requires SymbolWidth(w) && |before| == |now| == w * w && Layout(blocks, b1, dl, el)
    requires Filled(before, now, Trail(before, w, First()), Modules(Interleaved(blocks, b1, dl, el), remainder))
    requires r <= |blocks|
    ensures forall m | 0 <= m < |Trail(now, w, First())| :: Trail(now, w, First())[m] < |now|
    ensures ReadBlocks(now, Trail(now, w, First()), |blocks|, b1, dl, r) == JoinedData(blocks[..r])
  {
    hide Trail, Filled, Modules, Interleaved, ReadBlock;
    TrailOnFrame(now, w);
    if r > 0 {
      ReadBlocksAre(before, now, w, blocks, b1, dl, el, remainder, r - 1);
      ReadBlockIs(before, now, w, blocks, b1, dl, el, remainder, r - 1);
      assert blocks[..r][..r - 1] == blocks[..r - 1];
    }
  }

  /** The specification of a version lays its data out in blocks the Reed-Solomon code can take. */
  lemma SpecLayout(version: Version, level: Level)
    requires version >= 1
    ensures var s := GetEccSpec(version, level);
      && s.blocks1 >= 1 && s.dataCodes1 >= 1 && s.eccCodes >= 1
      && s.dataCodes1 + 1 + s.eccCodes <= 255
      && s.blocks1 * s.dataCodes1 + s.blocks2 * (s.dataCodes1 + 1) == DataLength(version, level)
      && (s.blocks1 + s.blocks2) * s.eccCodes == EccLength(version, level)
  {
    hide FirstBlocks, SecondBlocks, DataLength, EccLength;
    ConsistentAt(version, level);
    var s := GetEccSpec(version, level);
    BlocksTotal(s.blocks1, s.blocks2, s.dataCodes1);
  }

  lemma BlocksTotal(b1: nat, b2: nat, dl: nat)
    ensures b1 * dl + b2 * (dl + 1) == (b1 + b2) * dl + b2
  {
  }

  /** What a finished frame holds: codewords of the code whose data are the bytes, laid along the path. */
  ghost predicate Holds(before: seq<Byte>, now: seq<Byte>, version: Version, level: Level, bytes: Bytes)
    requires EmptyFrameSize(before, version)
  {
    var w, s := CapacityOf(version).width, GetEccSpec(version, level);
    WidthOf(version);
    |now| == |before|
    && exists blocks: seq<Block> ::
         && |blocks| == s.blocks1 + s.blocks2
         && Layout(blocks, s.blocks1, s.dataCodes1, s.eccCodes)
         && JoinedData(blocks) == bytes && AllCodewords(blocks, s.eccCodes)
         && Filled(before, now, Trail(before, w, First()),
                   Modules(Interleaved(blocks, s.blocks1, s.dataCodes1, s.eccCodes), CapacityOf(version).remainder))
  }

  predicate EmptyFrameSize(frame: seq<Byte>, version: Version) {
    version >= 1 && |frame| == CapacityOf(version).width * CapacityOf(version).width
  }

  lemma HeldDataIsRead(before: seq<Byte>, now: seq<Byte>, version: Version, level: Level, bytes: Bytes)
    requires EmptyFrameSize(before, version) && Holds(before, now, version, level, bytes)
    ensures ReadSymbol(now, version, level) == DecodeStream(BitsOfBytes(bytes), version)
  {
    hide Trail, Filled, Modules, Interleaved, AllCodewords, ReadBlocks, DecodeStream, BitsOfBytes, JoinedData,
      CapacityOf, GetEccSpec;
    var w, s := CapacityOf(version).width, GetEccSpec(version, level);
    WidthOf(version);
    var blocks: seq<Block> :|
      && |blocks| == s.blocks1 + s.blocks2
      && Layout(blocks, s.blocks1, s.dataCodes1, s.eccCodes)
      && JoinedData(blocks) == bytes && AllCodewords(blocks, s.eccCodes)
      && Filled(before, now, Trail(before, w, First()),
                Modules(Interleaved(blocks, s.blocks1, s.dataCodes1, s.eccCodes), CapacityOf(version).remainder));
    ReadBlocksAre(before, now, w, blocks, s.blocks1, s.dataCodes1, s.eccCodes, CapacityOf(version).remainder, |blocks|);
    assert blocks[..|blocks|] == blocks;
  }

  /**
   * QRcode_encodeMask up to the choice of the mask. A finished frame reads back as the input. There is
   * none exactly if the input is too long for every symbol.
   */
  method EncodeFrame(input: QRInput) returns (frame: array?<Byte>)
    requires input.Valid()
    modifies input`version
    ensures old(input.version) <= input.version
    ensures frame == null <==> FinalVersion(input.entries, input.level, old(input.version)) == None
    ensures frame == null ==>
              forall v: Version | v >= 1 :: 8 * DataLength(v, input.level) < |EncodedAll(input.entries, input.version)|
    ensures frame != null ==> FinalVersion(input.entries, input.level, old(input.version)) == Some(input.version)
    ensures frame != null ==> LeastFor(input.entries, input.level, old(input.version), input.version)
    ensures frame != null ==>
      && fresh(frame)
      && input.version >= 1
      && EmptyFrameSize(frame[..], input.version)
      && Recovers(ReadSymbol(frame[..], input.version, input.level), input.entries)
    ensures frame != null ==>
      && EmptyFrameSize(NewFrame(input.version), input.version)
      && exists bytes: Bytes :: Holds(NewFrame(input.version), frame[..], input.version, input.level, bytes)
  {
    hide FinalVersion, LeastFor, DataLength, EncodedAll, Recovers, ReadSymbol, Holds, CapacityOf, GetEccSpec, Padding,
      DecodeStream, BitsOfBytes, Interleaved, Modules, Trail, Filled, AllCodewords, JoinedData, NewFrame, Drawn, Shows;
    frame := null;
    var datacode := input.GetByteStream();
    if datacode == None {
      return;
    }
    var version, level := input.version, input.level;
    var spec := GetEccSpec(version, level);
    SpecLayout(version, level);
    ByteStreamDecodes(input.entries, version, level, datacode.value);
    var blocks := RSblockInit(spec.blocks1, spec.dataCodes1, spec.eccCodes, spec.blocks2, datacode.value);
    assert blocks != None;
    var raw := new QRRawCode(blocks.value, spec.blocks1, spec.dataCodes1, spec.eccCodes);
    WidthOf(version);
    var width := CapacityOf(version).width;
    var f := CreateFrame(version);
    ghost var empty := f[..];
    ShownIsNew(version, empty);
    DrawnStart(version, empty);
    FreeModules(version, empty);
    StreamLength(blocks.value, version, level);
    var ok := PlaceStream(width, f, raw, CapacityOf(version).remainder);
    assert ok;
    HoldsWhen(empty, f[..], version, level, blocks.value, datacode.value);
    HeldDataIsRead(empty, f[..], version, level, datacode.value);
    frame := f;
  }

  lemma StreamLength(blocks: seq<Block>, version: Version, level: Level)
    requires version >= 1
    requires var s := GetEccSpec(version, level);
      |blocks| == s.blocks1 + s.blocks2 && Layout(blocks, s.blocks1, s.dataCodes1, s.eccCodes)
    ensures var s := GetEccSpec(version, level);
      |Modules(Interleaved(blocks, s.blocks1, s.dataCodes1, s.eccCodes), CapacityOf(version).remainder)|
      == 8 * CapacityOf(version).words + CapacityOf(version).remainder
  {
    hide CapacityOf, GetEccSpec, EccLength;
    SpecLayout(version, level);
  }

  lemma HoldsWhen(before: seq<Byte>, now: seq<Byte>, version: Version, level: Level, blocks: seq<Block>, bytes: Bytes)
    requires EmptyFrameSize(before, version)
    requires SymbolWidth(CapacityOf(version).width)
    requires var s := GetEccSpec(version, level);
      && |now| == |before| && |blocks| == s.blocks1 + s.blocks2
      && Layout(blocks, s.blocks1, s.dataCodes1, s.eccCodes)
      && JoinedData(blocks) == bytes && AllCodewords(blocks, s.eccCodes)
      && Filled(before, now, Trail(before, CapacityOf(version).width, First()),
                Modules(Interleaved(blocks, s.blocks1, s.dataCodes1, s.eccCodes), CapacityOf(version).remainder))
    ensures Holds(before, now, version, level, bytes)
  {
  }
}
