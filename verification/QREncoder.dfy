/** The encoders of qrinput.c: entries to bit streams, split where the length field is too short. */
module QREncoder {
  import opened Bytes
  import opened Bits
  import opened BitStreams
  import opened QRSpec
  import opened QRSegments

  // ----- Entries and their pieces

  /** What the input may hold: data the check accepts, or a header. */
  predicate GoodEntry(e: Entry) {
    if e.mode == Structure then Header(e.data) else e.data != [] && Encodable(e.mode, e.data)
  }

  predicate Good(es: seq<Entry>) {
    forall i | 0 <= i < |es| :: GoodEntry(es[i])
  }

  lemma WordsPositive(mode: Mode, version: Version)
    ensures mode != Structure ==> MaximumWords(mode, version) >= 255
    ensures mode == Kanji ==> MaximumWords(mode, version) % 2 == 0
  {
    if mode != Structure {
      Pow2Monotone(8, LengthIndicator(mode, version));
      assert Pow2(8) == 256;
    }
  }

  /** The segments of an entry: as long as the length field allows, and a shorter last one. */
  function Pieces(e: Entry, version: Version): (ps: seq<Entry>)
    requires GoodEntry(e)
    decreases |e.data|
  {
    var words := MaximumWords(e.mode, version);
    if words != 0 && |e.data| > words then
      CutEntry(e, version);
      [Entry(e.mode, e.data[..words])] + Pieces(Entry(e.mode, e.data[words..]), version)
    else [e]
  }

  lemma CutEntry(e: Entry, version: Version)
    requires GoodEntry(e)
    ensures var words := MaximumWords(e.mode, version);
      words != 0 && |e.data| > words ==>
        Piece(Entry(e.mode, e.data[..words]), version) && GoodEntry(Entry(e.mode, e.data[words..]))
    ensures MaximumWords(e.mode, version) == 0 || |e.data| <= MaximumWords(e.mode, version) ==> Piece(e, version)
  {
    hide Encodable;
    var words := MaximumWords(e.mode, version);
    WordsPositive(e.mode, version);
    if words != 0 && |e.data| > words {
      EncodableParts(e.mode, e.data, words);
    }
  }

  lemma {:induction false} PiecesOk(e: Entry, version: Version)
    requires GoodEntry(e)
    ensures AllPieces(Pieces(e, version), version)
    decreases |e.data|
  {
    hide GoodEntry, Piece;
    CutEntry(e, version);
    var words := MaximumWords(e.mode, version);
    if words != 0 && |e.data| > words {
      PiecesOk(Entry(e.mode, e.data[words..]), version);
    }
  }

  /** The bits of one entry. */
  function Encoded(e: Entry, version: Version): BitSeq
    requires GoodEntry(e)
  {
    PiecesOk(e, version);
    EncodeAll(Pieces(e, version), version)
  }

  function AllPiecesOf(es: seq<Entry>, version: Version): seq<Entry>
    requires Good(es)
  {
    if es == [] then [] else Pieces(es[0], version) + AllPiecesOf(es[1..], version)
  }

  /** The bits of the whole input. */
  function EncodedAll(es: seq<Entry>, version: Version): BitSeq
    requires Good(es)
  {
    if es == [] then [] else Encoded(es[0], version) + EncodedAll(es[1..], version)
  }

  lemma {:induction false} EncodeAllAppend(ps: seq<Entry>, qs: seq<Entry>, version: Version)
    requires AllPieces(ps, version) && AllPieces(qs, version)
    ensures AllPieces(ps + qs, version)
    ensures EncodeAll(ps + qs, version) == EncodeAll(ps, version) + EncodeAll(qs, version)
  {
    hide EncodePiece, Piece;
    if ps == [] {
      assert ps + qs == qs;
    } else {
      EncodeAllAppend(ps[1..], qs, version);
      assert (ps + qs)[1..] == ps[1..] + qs;
    }
  }

  lemma {:induction false} EncodedIsPieces(es: seq<Entry>, version: Version)
    requires Good(es)
    ensures AllPieces(AllPiecesOf(es, version), version)
    ensures EncodedAll(es, version) == EncodeAll(AllPiecesOf(es, version), version)
  {
    hide GoodEntry, Piece, Pieces, EncodePiece;
    if es != [] {
      PiecesOk(es[0], version);
      EncodedIsPieces(es[1..], version);
      EncodeAllAppend(Pieces(es[0], version), AllPiecesOf(es[1..], version), version);
    }
  }

  // ----- What is encoded, byte by byte

  function Tag(e: Entry): seq<(Mode, Byte)> {
    seq(|e.data|, i requires 0 <= i < |e.data| => (e.mode, e.data[i]))
  }

  function Tagged(es: seq<Entry>): seq<(Mode, Byte)> {
    if es == [] then [] else Tag(es[0]) + Tagged(es[1..])
  }

  lemma {:induction false} TaggedAppend(es: seq<Entry>, fs: seq<Entry>)
    ensures Tagged(es + fs) == Tagged(es) + Tagged(fs)
  {
    hide Tag;
    if es == [] {
      assert es + fs == fs;
    } else {
      TaggedAppend(es[1..], fs);
      assert (es + fs)[1..] == es[1..] + fs;
    }
  }

  lemma TagCut(e: Entry, k: nat)
    requires k <= |e.data|
    ensures Tag(e) == Tag(Entry(e.mode, e.data[..k])) + Tag(Entry(e.mode, e.data[k..]))
  {
  }

  // ----- What a reader makes of the input

  function EntryRead(e: Entry): (r: Entry)
    requires GoodEntry(e)
    ensures r.mode == e.mode && |r.data| == |e.data|
  {
    if e.mode == Structure then e else Entry(e.mode, DataRead(e.mode, e.data))
  }

  function AsRead(es: seq<Entry>): (r: seq<Entry>)
    requires Good(es)
    ensures |r| == |es|
  {
    if es == [] then [] else [EntryRead(es[0])] + AsRead(es[1..])
  }

  predicate AllClear(es: seq<Entry>) {
    forall i | 0 <= i < |es| :: ClearTrails(es[i].mode, es[i].data)
  }

  lemma TagIsData(a: Entry, b: Entry)
    requires a.mode == b.mode
    ensures Tag(a) == Tag(b) <==> a.data == b.data
  {
    if Tag(a) == Tag(b) {
      assert |a.data| == |Tag(a)| == |b.data|;
      forall i | 0 <= i < |a.data| ensures a.data[i] == b.data[i] {
        assert Tag(a)[i] == Tag(b)[i];
      }
    }
  }

  lemma EntryReadIff(e: Entry)
    requires GoodEntry(e)
    ensures Tag(EntryRead(e)) == Tag(e) <==> ClearTrails(e.mode, e.data)
  {
    hide Encodable, DataRead, Tag;
    if e.mode != Structure {
      DataReadIff(e.mode, e.data);
      TagIsData(EntryRead(e), e);
    }
  }

  /** An input is read as it was exactly if all its Kanji have trail bytes that can be recovered. */
  lemma {:induction false} AsReadIff(es: seq<Entry>)
    requires Good(es)
    ensures Tagged(AsRead(es)) == Tagged(es) <==> AllClear(es)
  {
    hide GoodEntry, ClearTrails, EntryRead;
    if es != [] {
      var a, b, x, y := Tag(EntryRead(es[0])), Tag(es[0]), Tagged(AsRead(es[1..])), Tagged(es[1..]);
      assert AsRead(es)[1..] == AsRead(es[1..]);
      EntryReadIff(es[0]);
      AsReadIff(es[1..]);
      assert (a + x)[..|a|] == a && (a + x)[|a|..] == x && (b + y)[..|a|] == b && (b + y)[|a|..] == y;
      assert forall i | 0 <= i < |es[1..]| :: es[1..][i] == es[i + 1];
      assert forall i | 1 <= i < |es| :: es[i] == es[1..][i - 1];
    }
  }

  lemma {:induction false} PiecesAsRead(e: Entry, version: Version)
    requires GoodEntry(e)
    ensures AllPieces(Pieces(e, version), version)
    ensures Tagged(PiecesRead(Pieces(e, version), version)) == Tag(EntryRead(e))
    decreases |e.data|
  {
    hide Piece, GoodEntry, DataRead, Tag;
    var words := MaximumWords(e.mode, version);
    CutEntry(e, version);
    PiecesOk(e, version);
    if words != 0 && |e.data| > words {
      var front, back := Entry(e.mode, e.data[..words]), Entry(e.mode, e.data[words..]);
      PiecesAsRead(back, version);
      assert Pieces(e, version)[1..] == Pieces(back, version);
      EntryReadCut(e, words);
      PieceReadIs(front, version);
      var ps := PiecesRead(Pieces(e, version), version);
      assert ps[1..] == PiecesRead(Pieces(back, version), version);
    } else {
      assert [e][1..] == [];
      PieceReadIs(e, version);
      var ps := PiecesRead([e], version);
      assert ps[1..] == [];
    }
  }

  lemma PieceReadIs(p: Entry, version: Version)
    requires Piece(p, version)
    ensures GoodEntry(p) && PieceRead(p, version) == EntryRead(p)
  {
  }

  lemma EntryReadCut(e: Entry, k: nat)
    requires GoodEntry(e) && e.mode != Structure && 0 < k < |e.data| && (e.mode == Kanji ==> k % 2 == 0)
    ensures GoodEntry(Entry(e.mode, e.data[..k])) && GoodEntry(Entry(e.mode, e.data[k..]))
    ensures Tag(EntryRead(e)) == Tag(EntryRead(Entry(e.mode, e.data[..k]))) + Tag(EntryRead(Entry(e.mode, e.data[k..])))
  {
    hide Encodable, DataRead;
    EncodableParts(e.mode, e.data, k);
    DataReadCut(e.mode, e.data, k);
  }

  lemma {:induction false} AllPiecesAsRead(es: seq<Entry>, version: Version)
    requires Good(es)
    ensures AllPieces(AllPiecesOf(es, version), version)
    ensures Tagged(PiecesRead(AllPiecesOf(es, version), version)) == Tagged(AsRead(es))
  {
    hide GoodEntry, Pieces, Piece, EntryRead, PieceRead;
    EncodedIsPieces(es, version);
    if es != [] {
      PiecesAsRead(es[0], version);
      AllPiecesAsRead(es[1..], version);
      PiecesReadAppend(Pieces(es[0], version), AllPiecesOf(es[1..], version), version);
      TaggedAppend(PiecesRead(Pieces(es[0], version), version), PiecesRead(AllPiecesOf(es[1..], version), version));
      assert AsRead(es)[1..] == AsRead(es[1..]);
    }
  }

  lemma {:induction false} PiecesReadAppend(ps: seq<Entry>, qs: seq<Entry>, version: Version)
    requires AllPieces(ps, version) && AllPieces(qs, version)
    ensures AllPieces(ps + qs, version)
    ensures PiecesRead(ps + qs, version) == PiecesRead(ps, version) + PiecesRead(qs, version)
  {
    hide Piece, PieceRead;
    if ps == [] {
      assert ps + qs == qs;
    } else {
      PiecesReadAppend(ps[1..], qs, version);
      assert (ps + qs)[1..] == ps[1..] + qs;
    }
  }

  /** What was read holds every byte with its mode, in order: exactly if no Kanji has a trail byte below 0x40. */
  predicate Recovers(r: Option<seq<Entry>>, es: seq<Entry>)
    requires Good(es)
  {
    && r.Some? && Tagged(r.value) == Tagged(AsRead(es))
    && (Tagged(r.value) == Tagged(es) <==> AllClear(es))
  }

  /** The decoder recovers the input, even where entries were split. */
  lemma InputRoundTrip(es: seq<Entry>, version: Version, pad: BitSeq)
    requires Good(es) && Terminated(pad)
    ensures Recovers(DecodeStream(EncodedAll(es, version) + pad, version), es)
  {
    hide GoodEntry, Pieces, Terminated, AsRead, AllClear;
    EncodedIsPieces(es, version);
    StreamRoundTrip(AllPiecesOf(es, version), version, pad);
    AllPiecesAsRead(es, version);
    AsReadIff(es);
  }

  // ----- The encoders

  /** The head of a segment: mode indicator and character count. */
  function Head(mode: Mode, size: nat, version: Version): BitSeq {
    BitsHigh(ModeId(mode), 4) + BitsHigh(Count(mode, size), LengthIndicator(mode, version))
  }

  lemma PieceIs(p: Entry, version: Version)
    requires Piece(p, version) && p.mode != Structure
    ensures EncodePiece(p, version) == Head(p.mode, |p.data|, version) + Payload(p.mode, p.data)
  {
    hide Payload;
  }

  /** One more group: what the loops below append. */
  lemma NextGroup(mode: Mode, data: Bytes, i: nat)
    requires Encodable(mode, data) && i < |data| && i % GroupSize(mode) == 0
    ensures var k := FirstGroup(mode, |data| - i);
      && k >= 1 && i + k <= |data|
      && Group(mode, data[i..i + k])
      && Encodable(mode, data[..i]) && Encodable(mode, data[..i + k])
      && Payload(mode, data[..i + k])
         == Payload(mode, data[..i]) + BitsHigh(GroupValue(mode, data[i..i + k]), GroupBits(mode, k))
  {
    hide Encodable, Group, GroupValue, BitsHigh, Payload;
    var k := FirstGroup(mode, |data| - i);
    KanjiInPairs(mode, data);
    EncodableParts(mode, data, i);
    EncodableParts(mode, data, i + k);
    PayloadAppend(mode, data[..i + k], i);
    assert data[..i + k][..i] == data[..i] && data[..i + k][i..] == data[i..i + k];
    PayloadFirst(mode, data[i..i + k]);
    assert data[i..i + k][..k] == data[i..i + k] && data[i..i + k][k..] == [];
    PayloadFirst(mode, []);
  }

  method EncodeModeNum(entry: Entry, version: Version) returns (bstream: BitStream)
    requires entry.mode == Num && Piece(entry, version)
    ensures fresh(bstream) && bstream.data == EncodePiece(entry, version)
  {
    hide Payload, BitsHigh, Encodable;
    PieceIs(entry, version);
    bstream := new BitStream();
    bstream.AppendNum(4, 1);
    bstream.AppendNum(LengthIndicator(Num, version), |entry.data|);
    ghost var head := Head(Num, |entry.data|, version);
    var words := |entry.data| / 3;
    var val: nat;
    EncodableParts(Num, entry.data, 0);
    PayloadFirst(Num, entry.data[..0]);
    for i := 0 to words
      invariant fresh(bstream)
      invariant Encodable(Num, entry.data[..3 * i])
      invariant bstream.data == head + Payload(Num, entry.data[..3 * i])
    {
      NextGroup(Num, entry.data, 3 * i);
      ghost var g := entry.data[3 * i..3 * i + 3];
      assert Digit(g[0]) && Digit(g[1]) && Digit(g[2]);
      assert g[0] == entry.data[i * 3] && g[1] == entry.data[i * 3 + 1] && g[2] == entry.data[i * 3 + 2];
      val := (entry.data[i * 3] as int - 0x30) * 100;
      val := val + (entry.data[i * 3 + 1] as int - 0x30) * 10;
      val := val + (entry.data[i * 3 + 2] - 0x30);
      bstream.AppendNum(10, val);
    }
    if |entry.data| - words * 3 == 1 {
      NextGroup(Num, entry.data, 3 * words);
      val := entry.data[words * 3] - 0x30;
      bstream.AppendNum(4, val);
    } else if |entry.data| - words * 3 == 2 {
      NextGroup(Num, entry.data, 3 * words);
      val := (entry.data[words * 3] as int - 0x30) * 10;
      val := val + (entry.data[words * 3 + 1] - 0x30);
      bstream.AppendNum(7, val);
    }
    assert entry.data[..|entry.data|] == entry.data;
  }

  method EncodeModeAn(entry: Entry, version: Version) returns (bstream: BitStream)
    requires entry.mode == An && Piece(entry, version)
    ensures fresh(bstream) && bstream.data == EncodePiece(entry, version)
  {
    hide Payload, BitsHigh, Encodable, LookAnTable;
    PieceIs(entry, version);
    bstream := new BitStream();
    bstream.AppendNum(4, 2);
    bstream.AppendNum(LengthIndicator(An, version), |entry.data|);
    ghost var head := Head(An, |entry.data|, version);
    var words := |entry.data| / 2;
    var val: nat;
    EncodableParts(An, entry.data, 0);
    PayloadFirst(An, entry.data[..0]);
    for i := 0 to words
      invariant fresh(bstream)
      invariant Encodable(An, entry.data[..2 * i])
      invariant bstream.data == head + Payload(An, entry.data[..2 * i])
    {
      NextGroup(An, entry.data, 2 * i);
      ghost var g := entry.data[2 * i..2 * i + 2];
      assert LookAnTable(g[0]) >= 0 && LookAnTable(g[1]) >= 0;
      assert g[0] == entry.data[i * 2] && g[1] == entry.data[i * 2 + 1];
      val := LookAnTable(entry.data[i * 2]) * 45;
      val := val + LookAnTable(entry.data[i * 2 + 1]);
      bstream.AppendNum(11, val);
    }
    if |entry.data| % 2 == 1 {
      NextGroup(An, entry.data, 2 * words);
      val := LookAnTable(entry.data[words * 2]);
      bstream.AppendNum(6, val);
    }
    assert entry.data[..|entry.data|] == entry.data;
  }

  lemma {:induction false} BytesPayload(data: Bytes)
    ensures Encodable(Eight, data) && Payload(Eight, data) == BitsOfBytes(data)
  {
    hide BitsHigh;
    if data != [] {
      BytesPayload(data[1..]);
      assert data[..1] == [data[0]];
    }
  }

  method EncodeMode8(entry: Entry, version: Version) returns (bstream: BitStream)
    requires entry.mode == Eight && Piece(entry, version)
    ensures fresh(bstream) && bstream.data == EncodePiece(entry, version)
  {
    hide Payload, BitsHigh, BitsOfBytes, Encodable;
    PieceIs(entry, version);
    bstream := new BitStream();
    bstream.AppendNum(4, 4);
    bstream.AppendNum(LengthIndicator(Eight, version), |entry.data|);
    bstream.AppendBytes(entry.data);
    BytesPayload(entry.data);
  }

  method EncodeModeKanji(entry: Entry, version: Version) returns (bstream: BitStream)
    requires entry.mode == Kanji && Piece(entry, version)
    ensures fresh(bstream) && bstream.data == EncodePiece(entry, version)
  {
    hide Payload, BitsHigh, Encodable;
    PieceIs(entry, version);
    KanjiInPairs(Kanji, entry.data);
    bstream := new BitStream();
    bstream.AppendNum(4, 8);
    bstream.AppendNum(LengthIndicator(Kanji, version), |entry.data| / 2);
    ghost var head := Head(Kanji, |entry.data|, version);
    EncodableParts(Kanji, entry.data, 0);
    PayloadFirst(Kanji, entry.data[..0]);
    var i := 0;
    while i < |entry.data|
      invariant i % 2 == 0 && i <= |entry.data|
      invariant fresh(bstream)
      invariant Encodable(Kanji, entry.data[..i])
      invariant bstream.data == head + Payload(Kanji, entry.data[..i])
    {
      NextGroup(Kanji, entry.data, i);
      var val := (entry.data[i] as int) * 256 + entry.data[i + 1];
      if val <= 0x9FFC {
        val := val - 0x8140;
      } else {
        val := val - 0xC140;
      }
      var h := val / 256 * 0xC0;
      val := val % 256 + h;
      bstream.AppendNum(13, val);
      i := i + 2;
    }
    assert entry.data[..|entry.data|] == entry.data;
  }

  method EncodeModeStructure(entry: Entry, version: Version) returns (bstream: BitStream)
    requires entry.mode == Structure && Piece(entry, version)
    ensures fresh(bstream) && bstream.data == EncodePiece(entry, version)
  {
    hide BitsHigh;
    bstream := new BitStream();
    bstream.AppendNum(4, 3);
    bstream.AppendNum(4, entry.data[1] - 1);
    bstream.AppendNum(4, entry.data[0] - 1);
    bstream.AppendNum(8, entry.data[2]);
  }

  /** QRinput_encodeBitStream: cuts a long entry in two and encodes both parts. */
  method EncodeBitStream(entry: Entry, version: Version) returns (bstream: BitStream)
    requires GoodEntry(entry)
    ensures fresh(bstream) && bstream.data == Encoded(entry, version)
    decreases |entry.data|
  {
    hide EncodePiece, Piece, GoodEntry;
    CutEntry(entry, version);
    WordsPositive(entry.mode, version);
    EncodedParts(entry, version);
    var words := MaximumWords(entry.mode, version);
    if words != 0 && |entry.data| > words {
      var st1 := Entry(entry.mode, entry.data[..words]);
      var st2 := Entry(entry.mode, entry.data[words..]);
      PieceIsEntry(st1, version);
      CutEntry(st1, version);
      EncodedParts(st1, version);
      var bstream1 := EncodeBitStream(st1, version);
      var bstream2 := EncodeBitStream(st2, version);
      bstream := new BitStream();
      bstream.Append(bstream1);
      bstream.Append(bstream2);
    } else {
      match entry.mode
      case Num => bstream := EncodeModeNum(entry, version);
      case An => bstream := EncodeModeAn(entry, version);
      case Eight => bstream := EncodeMode8(entry, version);
      case Kanji => bstream := EncodeModeKanji(entry, version);
      case Structure => bstream := EncodeModeStructure(entry, version);
    }
  }

  lemma PieceIsEntry(p: Entry, version: Version)
    requires Piece(p, version)
    ensures GoodEntry(p)
  {
  }

  lemma EncodedParts(e: Entry, version: Version)
    requires GoodEntry(e)
    ensures var words := MaximumWords(e.mode, version);
      if words != 0 && |e.data| > words then
        && Piece(Entry(e.mode, e.data[..words]), version) && GoodEntry(Entry(e.mode, e.data[words..]))
        && Encoded(e, version)
           == EncodePiece(Entry(e.mode, e.data[..words]), version) + Encoded(Entry(e.mode, e.data[words..]), version)
      else Piece(e, version) && Encoded(e, version) == EncodePiece(e, version)
  {
    hide EncodePiece, Piece, GoodEntry;
    CutEntry(e, version);
    var words := MaximumWords(e.mode, version);
    if words != 0 && |e.data| > words {
      PiecesOk(e, version);
      assert Pieces(e, version)[1..] == Pieces(Entry(e.mode, e.data[words..]), version);
    } else {
      assert [e][1..] == [];
      assert EncodeAll([e], version) == EncodePiece(e, version) + [];
    }
  }
}
