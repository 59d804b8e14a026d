/**
 * The data segments of a QR code (ISO/IEC 18004:2006, section 6.4): how each mode packs its
 * characters into bits, and the reference decoder that reads them.
 */
module QRSegments {
  import opened Bytes
  import opened Bits
  import opened QRSpec

  /** An entry of the input; for Structure the data are symbol count, symbol number and parity. */
  datatype Entry = Entry(mode: Mode, data: Bytes)

  // ----- Characters

  /** The alphanumeric table; -1 for bytes that are not in it. */
  function LookAnTable(c: Byte): int {
    if 0x30 <= c <= 0x39 then c - 0x30
    else if 0x41 <= c <= 0x5A then c - 0x41 + 10
    else if c == 0x20 then 36
    else if c == 0x24 then 37
    else if c == 0x25 then 38
    else if c == 0x2A then 39
    else if c == 0x2B then 40
    else if c == 0x2D then 41
    else if c == 0x2E then 42
    else if c == 0x2F then 43
    else if c == 0x3A then 44
    else -1
  }

  function AnChar(v: nat): (c: Byte)
    requires v < 45
    ensures LookAnTable(c) == v
  {
    if v < 10 then 0x30 + v
    else if v < 36 then 0x41 + v - 10
    else if v == 36 then 0x20
    else if v == 37 then 0x24
    else if v == 38 then 0x25
    else if v == 39 then 0x2A
    else if v == 40 then 0x2B
    else if v == 41 then 0x2D
    else if v == 42 then 0x2E
    else if v == 43 then 0x2F
    else 0x3A
  }

  predicate Digit(c: Byte) {
    0x30 <= c <= 0x39
  }

  /** What the check accepts as a Kanji: a 16 bit value in one of two ranges. */
  predicate KanjiValue(hi: Byte, lo: Byte) {
    var val := hi * 256 + lo;
    0x8140 <= val <= 0x9FFC || 0xE040 <= val <= 0xEBBF
  }

  predicate AllKanji(data: Bytes) {
    && |data| % 2 == 0
    && forall i | 0 <= i < |data| / 2 :: KanjiValue(data[2 * i], data[2 * i + 1])
  }

  /** QRinput_check. */
  predicate Check(mode: Mode, data: Bytes) {
    && data != []
    && match mode
       case Num => forall i | 0 <= i < |data| :: Digit(data[i])
       case An => forall i | 0 <= i < |data| :: LookAnTable(data[i]) >= 0
       case Eight => true
       case Kanji => AllKanji(data)
       case Structure => true
  }

  /** The packing of a Kanji: the offset of its range off, then 192 trail bytes to a lead byte. */
  function PackKanji(hi: Byte, lo: Byte): (v: nat)
    requires KanjiValue(hi, lo)
  {
    var val := hi * 256 + lo;
    var off := if val <= 0x9FFC then val - 0x8140 else val - 0xC140;
    off / 256 * 0xC0 + off % 256
  }

  function UnpackKanji(v: nat): (g: Option<Bytes>)
    ensures g.Some? ==> |g.value| == 2
  {
    var hi := v / 0xC0 + (if v / 0xC0 <= 0x1E then 0x81 else 0xC1);
    if hi < 256 then Some([hi, v % 0xC0 + 0x40]) else None
  }

  /** A Kanji comes back just when its trail byte is at least 0x40; the check does not ask for that. */
  lemma KanjiRoundTripIff(hi: Byte, lo: Byte)
    requires KanjiValue(hi, lo)
    ensures PackKanji(hi, lo) < 0x2000
    ensures UnpackKanji(PackKanji(hi, lo)).Some?
    ensures UnpackKanji(PackKanji(hi, lo)) == Some([hi, lo]) <==> lo >= 0x40
  {
    var val := hi * 256 + lo;
    var base := if val <= 0x9FFC then 0x81 else 0xC1;
    var off := val - (base * 256 + 0x40);
    if lo >= 0x40 {
      assert off / 256 == hi - base && off % 256 == lo - 0x40;
    } else {
      assert off / 256 == hi - base - 1 && off % 256 == lo + 0xC0;
    }
  }

  // ----- Groups of characters that share a number

  function GroupSize(mode: Mode): (n: nat)
    ensures n >= 1
  {
    match mode
    case Num => 3
    case An => 2
    case Eight => 1
    case Kanji => 2
    case Structure => 1
  }

  function GroupBits(mode: Mode, k: nat): (n: nat)
    ensures n >= 1
  {
    match mode
    case Num => if k == 1 then 4 else if k == 2 then 7 else 10
    case An => if k == 1 then 6 else 11
    case Eight => 8
    case Kanji => 13
    case Structure => 8
  }

  /** Characters of one group. */
  predicate Group(mode: Mode, g: Bytes) {
    && 1 <= |g| <= GroupSize(mode)
    && match mode
       case Num => forall i | 0 <= i < |g| :: Digit(g[i])
       case An => forall i | 0 <= i < |g| :: LookAnTable(g[i]) >= 0
       case Eight => true
       case Kanji => |g| == 2 && KanjiValue(g[0], g[1])
       case Structure => false
  }

  function GroupValue(mode: Mode, g: Bytes): nat
    requires Group(mode, g)
  {
    match mode
    case Num =>
      if |g| == 1 then g[0] - 0x30
      else if |g| == 2 then (g[0] - 0x30) * 10 + (g[1] - 0x30)
      else (g[0] - 0x30) * 100 + (g[1] - 0x30) * 10 + (g[2] - 0x30)
    case An => if |g| == 1 then LookAnTable(g[0]) else LookAnTable(g[0]) * 45 + LookAnTable(g[1])
    case Eight => g[0]
    case Kanji => PackKanji(g[0], g[1])
  }

  function Ungroup(mode: Mode, k: nat, v: nat): Option<Bytes> {
    match mode
    case Num =>
      if k == 1 then if v < 10 then Some([v + 0x30]) else None
      else if k == 2 then if v < 100 then Some([v / 10 + 0x30, v % 10 + 0x30]) else None
      else if v < 1000 then Some([v / 100 + 0x30, v / 10 % 10 + 0x30, v % 10 + 0x30]) else None
    case An =>
      if k == 1 then if v < 45 then Some([AnChar(v)]) else None
      else if v < 2025 then Some([AnChar(v / 45), AnChar(v % 45)]) else None
    case Eight => if v < 256 then Some([v]) else None
    case Kanji => UnpackKanji(v)
    case Structure => None
  }

  lemma AnCharUnique(c: Byte)
    requires LookAnTable(c) >= 0
    ensures LookAnTable(c) < 45 && AnChar(LookAnTable(c)) == c
  {
  }

  /** What a reader makes of a group: the group, but for Kanji with a small trail byte. */
  function GroupRead(mode: Mode, g: Bytes): (r: Bytes)
    requires Group(mode, g)
    ensures |r| == |g|
    ensures r == g <==> (mode == Kanji ==> g[1] >= 0x40)
  {
    if mode == Kanji then
      KanjiRoundTripIff(g[0], g[1]);
      assert g == [g[0], g[1]];
      UnpackKanji(PackKanji(g[0], g[1])).value
    else g
  }

  lemma GroupRoundTrip(mode: Mode, g: Bytes)
    requires Group(mode, g)
    ensures GroupValue(mode, g) < Pow2(GroupBits(mode, |g|))
    ensures Ungroup(mode, |g|, GroupValue(mode, g)) == Some(GroupRead(mode, g))
  {
    match mode
    case Num => NumRoundTrip(g);
    case An => AnRoundTrip(g);
    case Eight =>
      assert Pow2(8) == 256;
      assert g == [g[0]];
    case Kanji =>
      KanjiRoundTripIff(g[0], g[1]);
      assert Pow2(13) == 0x2000;
      assert g == [g[0], g[1]];
  }

  lemma NumRoundTrip(g: Bytes)
    requires Group(Num, g)
    ensures GroupValue(Num, g) < Pow2(GroupBits(Num, |g|))
    ensures Ungroup(Num, |g|, GroupValue(Num, g)) == Some(g)
  {
    hide Pow2;
    NumPowers();
    if |g| == 1 {
      assert g == [g[0]];
    } else if |g| == 2 {
      assert g == [g[0], g[1]];
    } else {
      assert g == [g[0], g[1], g[2]];
      ThreeDigits(g[0] - 0x30, g[1] - 0x30, g[2] - 0x30);
    }
  }

  lemma NumPowers()
    ensures Pow2(4) == 16 && Pow2(7) == 128 && Pow2(10) == 1024
  {
  }

  lemma ThreeDigits(a: nat, b: nat, c: nat)
    requires a < 10 && b < 10 && c < 10
    ensures var v := a * 100 + b * 10 + c; v / 100 == a && v / 10 % 10 == b && v % 10 == c
  {
    var v := a * 100 + b * 10 + c;
    assert v / 10 == a * 10 + b;
  }

  lemma AnRoundTrip(g: Bytes)
    requires Group(An, g)
    ensures GroupValue(An, g) < Pow2(GroupBits(An, |g|))
    ensures Ungroup(An, |g|, GroupValue(An, g)) == Some(g)
  {
    hide AnChar, LookAnTable;
    assert Pow2(6) == 64 && Pow2(11) == 2048;
    AnCharUnique(g[0]);
    if |g| == 1 {
      assert g == [g[0]];
    } else {
      AnCharUnique(g[1]);
      assert g == [g[0], g[1]];
      var v := GroupValue(An, g);
      assert v / 45 == LookAnTable(g[0]) && v % 45 == LookAnTable(g[1]);
    }
  }

  // ----- Payloads

  /** Data that the check accepts: groups of valid characters, the last one perhaps shorter. */
  predicate Encodable(mode: Mode, data: Bytes) {
    match mode
    case Num => forall i | 0 <= i < |data| :: Digit(data[i])
    case An => forall i | 0 <= i < |data| :: LookAnTable(data[i]) >= 0
    case Eight => true
    case Kanji => AllKanji(data)
    case Structure => false
  }

  function FirstGroup(mode: Mode, n: nat): nat {
    if n < GroupSize(mode) then n else GroupSize(mode)
  }

  lemma EncodableParts(mode: Mode, data: Bytes, k: nat)
    requires Encodable(mode, data) && k <= |data| && (mode == Kanji ==> k % 2 == 0)
    ensures Encodable(mode, data[..k]) && Encodable(mode, data[k..])
  {
    if mode == Kanji {
      forall i | 0 <= i < |data[k..]| / 2
        ensures KanjiValue(data[k..][2 * i], data[k..][2 * i + 1])
      {
        var j := i + k / 2;
        assert data[k..][2 * i] == data[2 * j] && data[k..][2 * i + 1] == data[2 * j + 1];
      }
      forall i | 0 <= i < |data[..k]| / 2
        ensures KanjiValue(data[..k][2 * i], data[..k][2 * i + 1])
      {
        assert data[..k][2 * i] == data[2 * i] && data[..k][2 * i + 1] == data[2 * i + 1];
      }
    }
  }

  /** Cuts the first group off. */
  lemma EncodableGroup(mode: Mode, data: Bytes)
    requires Encodable(mode, data) && data != []
    ensures var k := FirstGroup(mode, |data|);
      1 <= k <= |data| && Group(mode, data[..k]) && Encodable(mode, data[k..])
  {
    var k := FirstGroup(mode, |data|);
    EncodableParts(mode, data, k);
    if mode == Kanji {
      assert KanjiValue(data[2 * 0], data[2 * 0 + 1]);
    }
  }

  /** What a reader makes of the data, group by group. */
  function DataRead(mode: Mode, data: Bytes): (r: Bytes)
    requires Encodable(mode, data)
    ensures |r| == |data|
    decreases |data|
  {
    if data == [] then []
    else
      var k := FirstGroup(mode, |data|);
      EncodableGroup(mode, data);
      GroupRead(mode, data[..k]) + DataRead(mode, data[k..])
  }

  /** The trail bytes a reader can recover. */
  predicate ClearTrails(mode: Mode, data: Bytes) {
    mode == Kanji ==> forall i | 0 <= i < |data| && i % 2 == 1 :: data[i] >= 0x40
  }

  /** All data are read as they were, but for Kanji with small trail bytes. */
  lemma {:induction false} DataReadIff(mode: Mode, data: Bytes)
    requires Encodable(mode, data)
    ensures DataRead(mode, data) == data <==> ClearTrails(mode, data)
    decreases |data|
  {
    if data != [] {
      var k := FirstGroup(mode, |data|);
      EncodableGroup(mode, data);
      DataReadIff(mode, data[k..]);
      assert data == data[..k] + data[k..];
      var g, rest := GroupRead(mode, data[..k]), DataRead(mode, data[k..]);
      assert (g + rest)[..k] == g && (g + rest)[k..] == rest;
      TrailsParts(mode, data, k);
      TrailsOfGroup(mode, data[..k]);
    }
  }

  lemma TrailsOfGroup(mode: Mode, g: Bytes)
    requires Group(mode, g)
    ensures ClearTrails(mode, g) <==> (mode == Kanji ==> g[1] >= 0x40)
  {
  }

  lemma TrailsParts(mode: Mode, data: Bytes, k: nat)
    requires k <= |data| && (mode == Kanji ==> k % 2 == 0)
    ensures ClearTrails(mode, data) <==> ClearTrails(mode, data[..k]) && ClearTrails(mode, data[k..])
  {
    if mode == Kanji {
      assert forall i | 0 <= i < |data[k..]| :: data[k..][i] == data[i + k];
      assert forall i | k <= i < |data| :: data[i] == data[k..][i - k];
    }
  }

  /** Data may be cut anywhere but inside a Kanji, and read in parts. */
  lemma {:induction false} DataReadCut(mode: Mode, data: Bytes, k: nat)
    requires Encodable(mode, data) && k <= |data| && (mode == Kanji ==> k % 2 == 0)
    ensures Encodable(mode, data[..k]) && Encodable(mode, data[k..])
    ensures DataRead(mode, data) == DataRead(mode, data[..k]) + DataRead(mode, data[k..])
    decreases |data|
  {
    hide Encodable, DataRead;
    EncodableParts(mode, data, k);
    if mode != Kanji {
      DataReadIff(mode, data);
      DataReadIff(mode, data[..k]);
      DataReadIff(mode, data[k..]);
    } else if k > 0 {
      DataReadFirst(mode, data);
      DataReadFirst(mode, data[..k]);
      DataReadCut(mode, data[2..], k - 2);
      assert data[..k][..2] == data[..2] && data[..k][2..] == data[2..][..k - 2];
      assert data[2..][k - 2..] == data[k..];
    } else {
      DataReadFirst(mode, data[..k]);
      assert data[k..] == data;
    }
  }

  lemma DataReadFirst(mode: Mode, data: Bytes)
    requires Encodable(mode, data)
    ensures data == [] ==> DataRead(mode, data) == []
    ensures data != [] ==>
      var k := FirstGroup(mode, |data|);
      && Group(mode, data[..k]) && Encodable(mode, data[k..])
      && DataRead(mode, data) == GroupRead(mode, data[..k]) + DataRead(mode, data[k..])
  {
    if data != [] {
      EncodableGroup(mode, data);
    }
  }

  function Payload(mode: Mode, data: Bytes): BitSeq
    requires Encodable(mode, data)
    decreases |data|
  {
    if data == [] then []
    else
      var k := FirstGroup(mode, |data|);
      EncodableGroup(mode, data);
      BitsHigh(GroupValue(mode, data[..k]), GroupBits(mode, k)) + Payload(mode, data[k..])
  }

  function ReadPayload(mode: Mode, n: nat, bits: BitSeq): Option<(Bytes, BitSeq)>
    decreases n
  {
    if n == 0 then Some(([], bits))
    else
      var k := FirstGroup(mode, n);
      var b := GroupBits(mode, k);
      if |bits| < b then None
      else
        var g := Ungroup(mode, k, Number(bits[..b]));
        if g.None? then None
        else
          var rest := ReadPayload(mode, n - k, bits[b..]);
          if rest.None? then None else Some((g.value + rest.value.0, rest.value.1))
  }

  lemma {:induction false} PayloadRoundTrip(mode: Mode, data: Bytes, rest: BitSeq)
    requires Encodable(mode, data)
    ensures ReadPayload(mode, |data|, Payload(mode, data) + rest) == Some((DataRead(mode, data), rest))
    decreases |data|
  {
    hide Encodable, Group, GroupValue, GroupRead, GroupBits, Ungroup, BitsHigh, Number;
    if data == [] {
      assert Payload(mode, data) + rest == rest;
    } else {
      var k := FirstGroup(mode, |data|);
      EncodableGroup(mode, data);
      var g, b := data[..k], GroupBits(mode, k);
      var v := GroupValue(mode, g);
      var all := Payload(mode, data) + rest;
      assert all == BitsHigh(v, b) + (Payload(mode, data[k..]) + rest);
      assert all[..b] == BitsHigh(v, b) && all[b..] == Payload(mode, data[k..]) + rest;
      GroupRoundTrip(mode, g);
      NumberOfBits(v, b);
      PayloadRoundTrip(mode, data[k..], rest);
    }
  }

  lemma PayloadFirst(mode: Mode, data: Bytes)
    requires Encodable(mode, data)
    ensures data == [] ==> Payload(mode, data) == []
    ensures data != [] ==>
      var k := FirstGroup(mode, |data|);
      && Group(mode, data[..k]) && Encodable(mode, data[k..])
      && Payload(mode, data) == BitsHigh(GroupValue(mode, data[..k]), GroupBits(mode, k)) + Payload(mode, data[k..])
  {
    if data != [] {
      EncodableGroup(mode, data);
    }
  }

  lemma WholeGroups(mode: Mode, k: nat, n: nat)
    requires k <= n && k % GroupSize(mode) == 0
    ensures mode == Kanji ==> k % 2 == 0
    ensures k > 0 ==>
      var g := GroupSize(mode);
      g <= k && FirstGroup(mode, n) == g == FirstGroup(mode, k) && (k - g) % g == 0
  {
    if k > 0 {
      match mode
      case Num => assert k >= 3 && (k - 3) % 3 == 0;
      case _ =>
    }
  }

  /** Whole groups can be encoded first, and the rest after them. */
  lemma {:induction false} PayloadAppend(mode: Mode, data: Bytes, k: nat)
    requires Encodable(mode, data) && k <= |data| && k % GroupSize(mode) == 0
    ensures Encodable(mode, data[..k]) && Encodable(mode, data[k..])
    ensures Payload(mode, data) == Payload(mode, data[..k]) + Payload(mode, data[k..])
    decreases |data|
  {
    hide Encodable, Group, GroupValue, GroupBits, BitsHigh, Payload, FirstGroup, GroupSize;
    WholeGroups(mode, k, |data|);
    EncodableParts(mode, data, k);
    PayloadFirst(mode, data);
    PayloadFirst(mode, data[..k]);
    if k == 0 {
      assert data[k..] == data;
    } else {
      var g := GroupSize(mode);
      PayloadAppend(mode, data[g..], k - g);
      assert data[..k][..g] == data[..g] && data[..k][g..] == data[g..][..k - g];
      assert data[g..][k - g..] == data[k..];
    }
  }

  // ----- Lengths

  /** QRinput_estimateBitsMode... */
  function EstimateBits(mode: Mode, size: nat): nat {
    match mode
    case Num => size / 3 * 10 + (if size % 3 == 1 then 4 else if size % 3 == 2 then 7 else 0)
    case An => size / 2 * 11 + (if size % 2 == 1 then 6 else 0)
    case Eight => size * 8
    case Kanji => size / 2 * 13
    case Structure => 0
  }

  lemma {:induction false} PayloadLength(mode: Mode, data: Bytes)
    requires Encodable(mode, data)
    ensures |Payload(mode, data)| == EstimateBits(mode, |data|)
    decreases |data|
  {
    hide GroupValue, BitsHigh, Payload, Encodable;
    PayloadFirst(mode, data);
    if data == [] {
    } else {
      KanjiInPairs(mode, data);
      PayloadLength(mode, data[FirstGroup(mode, |data|)..]);
    }
  }

  lemma KanjiInPairs(mode: Mode, data: Bytes)
    requires Encodable(mode, data)
    ensures mode == Kanji ==> |data| % 2 == 0
    ensures mode != Structure
  {
  }

  // ----- Segments

  function ModeId(mode: Mode): (id: nat)
    ensures 1 <= id < 16
  {
    match mode
    case Num => 1
    case An => 2
    case Eight => 4
    case Kanji => 8
    case Structure => 3
  }

  /** The length field counts characters: two bytes each in Kanji mode. */
  function Count(mode: Mode, size: nat): nat {
    if mode == Kanji then size / 2 else size
  }

  predicate Header(data: Bytes) {
    |data| == 3 && 1 <= data[1] <= data[0] <= 16
  }

  /** One segment: short enough for its length field. */
  predicate Piece(p: Entry, version: Version) {
    if p.mode == Structure then Header(p.data)
    else Encodable(p.mode, p.data) && p.data != [] && |p.data| <= MaximumWords(p.mode, version)
  }

  /** What a reader makes of a segment. */
  function PieceRead(p: Entry, version: Version): Entry
    requires Piece(p, version)
  {
    if p.mode == Structure then p else Entry(p.mode, DataRead(p.mode, p.data))
  }

  function EncodePiece(p: Entry, version: Version): BitSeq
    requires Piece(p, version)
  {
    if p.mode == Structure then
      BitsHigh(ModeId(p.mode), 4) + BitsHigh(p.data[1] - 1, 4) + BitsHigh(p.data[0] - 1, 4) + BitsHigh(p.data[2], 8)
    else
      BitsHigh(ModeId(p.mode), 4)
      + BitsHigh(Count(p.mode, |p.data|), LengthIndicator(p.mode, version))
      + Payload(p.mode, p.data)
  }

  function ModeOf(id: nat): Option<Mode> {
    match id
    case 1 => Some(Num)
    case 2 => Some(An)
    case 4 => Some(Eight)
    case 8 => Some(Kanji)
    case 3 => Some(Structure)
    case _ => None
  }

  function ReadPiece(bits: BitSeq, version: Version): (r: Option<(Entry, BitSeq)>)
    requires |bits| >= 4
  {
    var mode := ModeOf(Number(bits[..4]));
    if mode.None? then None
    else if mode.value == Structure then
      if |bits| < 20 then None
      else
        Nibbles(bits);
        Some((Entry(Structure, [Number(bits[8..12]) + 1, Number(bits[4..8]) + 1, Number(bits[12..20])]), bits[20..]))
    else
      var l := LengthIndicator(mode.value, version);
      if |bits| < 4 + l then None
      else
        var count := Number(bits[4..4 + l]);
        var rest := ReadPayload(mode.value, if mode.value == Kanji then 2 * count else count, bits[4 + l..]);
        if rest.None? then None else Some((Entry(mode.value, rest.value.0), rest.value.1))
  }

  lemma Nibbles(bits: BitSeq)
    requires |bits| >= 20
    ensures Number(bits[8..12]) < 16 && Number(bits[4..8]) < 16 && Number(bits[12..20]) < 256
  {
    assert Pow2(4) == 16 && Pow2(8) == 256;
  }

  lemma CountFits(p: Entry, version: Version)
    requires Piece(p, version) && p.mode != Structure
    ensures Count(p.mode, |p.data|) < Pow2(LengthIndicator(p.mode, version))
    ensures p.mode == Kanji ==> 2 * Count(p.mode, |p.data|) == |p.data|
  {
    hide Pow2;
  }

  lemma PieceRoundTrip(p: Entry, version: Version, rest: BitSeq)
    requires Piece(p, version)
    ensures |EncodePiece(p, version)| >= 4
    ensures ReadPiece(EncodePiece(p, version) + rest, version) == Some((PieceRead(p, version), rest))
  {
    hide BitsHigh, Number, Payload, ReadPayload, Pow2, LengthIndicator;
    var bits := EncodePiece(p, version) + rest;
    SmallPowers();
    NumberOfBits(ModeId(p.mode), 4);
    if p.mode == Structure {
      NumberOfBits(p.data[1] - 1, 4);
      NumberOfBits(p.data[0] - 1, 4);
      NumberOfBits(p.data[2], 8);
      HeaderParts(BitsHigh(ModeId(p.mode), 4), BitsHigh(p.data[1] - 1, 4), BitsHigh(p.data[0] - 1, 4),
        BitsHigh(p.data[2], 8), rest);
      assert p.data == [p.data[0], p.data[1], p.data[2]];
    } else {
      var l, c := LengthIndicator(p.mode, version), Count(p.mode, |p.data|);
      CountFits(p, version);
      NumberOfBits(c, l);
      PayloadRoundTrip(p.mode, p.data, rest);
      SegmentParts(BitsHigh(ModeId(p.mode), 4), BitsHigh(c, l), Payload(p.mode, p.data), rest);
    }
  }

  lemma SmallPowers()
    ensures Pow2(4) == 16 && Pow2(8) == 256
  {
  }

  lemma HeaderParts(a: BitSeq, b: BitSeq, c: BitSeq, d: BitSeq, rest: BitSeq)
    requires |a| == 4 && |b| == 4 && |c| == 4 && |d| == 8
    ensures var s := (a + b + c + d) + rest;
      s[..4] == a && s[4..8] == b && s[8..12] == c && s[12..20] == d && s[20..] == rest
  {
  }

  lemma SegmentParts(a: BitSeq, b: BitSeq, c: BitSeq, rest: BitSeq)
    requires |a| == 4
    ensures var s := (a + b + c) + rest;
      s[..4] == a && s[4..4 + |b|] == b && s[4 + |b|..] == c + rest
  {
  }

  // ----- Streams

  predicate AllPieces(ps: seq<Entry>, version: Version) {
    forall i | 0 <= i < |ps| :: Piece(ps[i], version)
  }

  function EncodeAll(ps: seq<Entry>, version: Version): BitSeq
    requires AllPieces(ps, version)
  {
    if ps == [] then [] else EncodePiece(ps[0], version) + EncodeAll(ps[1..], version)
  }

  function PiecesRead(ps: seq<Entry>, version: Version): (es: seq<Entry>)
    requires AllPieces(ps, version)
    ensures |es| == |ps|
  {
    if ps == [] then [] else [PieceRead(ps[0], version)] + PiecesRead(ps[1..], version)
  }

  /** The reference decoder: segments up to a terminator of four zeros, or up to fewer than four bits. */
  function DecodeStream(bits: BitSeq, version: Version): Option<seq<Entry>>
    decreases |bits|
  {
    if |bits| < 4 || Number(bits[..4]) == 0 then Some([])
    else
      var p := ReadPiece(bits, version);
      if p.None? || |p.value.1| >= |bits| then None
      else
        var rest := DecodeStream(p.value.1, version);
        if rest.None? then None else Some([p.value.0] + rest.value)
  }

  predicate Terminated(pad: BitSeq) {
    |pad| < 4 || Number(pad[..4]) == 0
  }

  /** Whatever follows the terminator, the decoder recovers the segments. */
  lemma {:induction false} StreamRoundTrip(ps: seq<Entry>, version: Version, pad: BitSeq)
    requires AllPieces(ps, version) && Terminated(pad)
    ensures DecodeStream(EncodeAll(ps, version) + pad, version) == Some(PiecesRead(ps, version))
    decreases |ps|
  {
    hide Number, ReadPiece, EncodePiece, PieceRead;
    if ps == [] {
      assert EncodeAll(ps, version) + pad == pad;
    } else {
      var rest := EncodeAll(ps[1..], version) + pad;
      StreamRoundTrip(ps[1..], version, pad);
      PieceRoundTrip(ps[0], version, rest);
      PieceStarts(ps[0], version, rest);
      assert EncodeAll(ps, version) + pad == EncodePiece(ps[0], version) + rest;
    }
  }

  lemma PieceStarts(p: Entry, version: Version, rest: BitSeq)
    requires Piece(p, version)
    ensures |EncodePiece(p, version)| >= 4
    ensures Number((EncodePiece(p, version) + rest)[..4]) == ModeId(p.mode) > 0
  {
    hide Number, Payload;
    SmallPowers();
    NumberOfBits(ModeId(p.mode), 4);
    assert (EncodePiece(p, version) + rest)[..4] == BitsHigh(ModeId(p.mode), 4);
  }
}
