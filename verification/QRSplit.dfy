/** Structured append: an input that is too long for one symbol is split over up to sixteen. */
module QRSplit {
  import opened Bytes
  import opened Bits
  import opened QRSpec
  import opened QRSegments
  import opened QREncoder
  import opened QREstimates
  import opened QRInputs
  import GF256

  const MAX_STRUCTURED_SYMBOLS := 16

  // ----- How many bytes fit into so many bits

  /** The sizes an entry of a mode can be cut to. */
  predicate Size(mode: Mode, version: Version, n: nat) {
    && mode != Structure
    && 1 <= n <= MaximumWords(mode, version)
    && (mode == Kanji ==> n % 2 == 0)
  }

  /** The bits of a segment of n bytes. */
  function SegmentBits(mode: Mode, version: Version, n: nat): nat {
    MODE_INDICATOR_SIZE + LengthIndicator(mode, version) + EstimateBits(mode, n)
  }

  /** Division as in C, towards zero. */
  function Truncated(a: int, b: nat): int
    requires b > 0
  {
    if a >= 0 then a / b else -(-a / b)
  }

  predicate SizeFits(mode: Mode, version: Version, bits: int, n: nat) {
    Size(mode, version, n) && SegmentBits(mode, version, n) <= bits
  }

  /** The largest size up to n of a segment that fits into the bits, or zero. */
  function LargestSize(mode: Mode, version: Version, bits: int, n: nat): (k: nat)
    ensures k <= n && (k == 0 || SizeFits(mode, version, bits, k))
    ensures forall m | k < m <= n :: !SizeFits(mode, version, bits, m)
  {
    if n == 0 || SizeFits(mode, version, bits, n) then n else LargestSize(mode, version, bits, n - 1)
  }

  function LengthFor(mode: Mode, version: Version, bits: int): (k: nat)
    ensures k == 0 || SizeFits(mode, version, bits, k)
    ensures forall m: nat | m > k :: !SizeFits(mode, version, bits, m)
  {
    LargestSize(mode, version, bits, MaximumWords(mode, version))
  }

  lemma LengthForIs(mode: Mode, version: Version, bits: int, size: nat)
    requires size == 0 || Size(mode, version, size)
    requires forall n: nat | Size(mode, version, n) :: n <= size <==> SegmentBits(mode, version, n) <= bits
    ensures size == LengthFor(mode, version, bits)
  {
    hide Size, SegmentBits, LengthFor;
    var k := LengthFor(mode, version, bits);
    if size > 0 {
      assert SizeFits(mode, version, bits, size);
    }
  }

  /**
   * QRinput_lengthOfCode is the adjoint of the size of a segment: a number of bytes is at most its
   * result just when a segment of that size fits into the bits. Headers are counted in bytes.
   */
  method LengthOfCode(mode: Mode, version: Version, bits: int) returns (size: nat)
    ensures mode != Structure ==> size == LengthFor(mode, version, bits)
    ensures forall n: nat | Size(mode, version, n) :: n <= size <==> SegmentBits(mode, version, n) <= bits
    ensures mode == Structure ==> size == if bits < 4 then 0 else (bits - 4) / 8
  {
    var payload := bits - 4 - LengthIndicator(mode, version);
    var sz: int;
    match mode {
      case Num =>
        var chunks := Truncated(payload, 10);
        var remain := payload - chunks * 10;
        sz := chunks * 3;
        if remain >= 7 {
          sz := sz + 2;
        } else if remain >= 4 {
          sz := sz + 1;
        }
      case An =>
        var chunks := Truncated(payload, 11);
        var remain := payload - chunks * 11;
        sz := chunks * 2;
        if remain >= 6 {
          sz := sz + 1;
        }
      case Eight =>
        sz := Truncated(payload, 8);
      case Kanji =>
        sz := Truncated(payload, 13) * 2;
      case Structure =>
        sz := Truncated(payload, 8);
    }
    if mode != Structure {
      FitsPayload(mode, payload, sz);
    }
    var maxsize := MaximumWords(mode, version);
    WordsPositive(mode, version);
    if sz < 0 {
      sz := 0;
    }
    if maxsize > 0 && sz > maxsize {
      sz := maxsize;
    }
    size := sz;
    if mode != Structure {
      LengthForIs(mode, version, bits, size);
    }
  }

  /** The size computed from the payload, before it is clamped. */
  predicate SizeFor(mode: Mode, payload: int, sz: int) {
    match mode
    case Num =>
      var chunks := Truncated(payload, 10);
      var remain := payload - chunks * 10;
      sz == chunks * 3 + (if remain >= 7 then 2 else if remain >= 4 then 1 else 0)
    case An =>
      var chunks := Truncated(payload, 11);
      sz == chunks * 2 + (if payload - chunks * 11 >= 6 then 1 else 0)
    case Eight => sz == Truncated(payload, 8)
    case Kanji => sz == Truncated(payload, 13) * 2
    case Structure => false
  }

  lemma FitsPayload(mode: Mode, payload: int, sz: int)
    requires SizeFor(mode, payload, sz)
    ensures forall n: nat | n >= 1 && (mode == Kanji ==> n % 2 == 0) :: n <= sz <==> EstimateBits(mode, n) <= payload
    ensures mode == Kanji ==> sz % 2 == 0
  {
    forall n: nat | n >= 1 && (mode == Kanji ==> n % 2 == 0)
      ensures n <= sz <==> EstimateBits(mode, n) <= payload
    {
      FitsOne(mode, payload, sz, n);
    }
  }

  lemma FitsOne(mode: Mode, payload: int, sz: int, n: nat)
    requires SizeFor(mode, payload, sz)
    requires n >= 1 && (mode == Kanji ==> n % 2 == 0)
    ensures n <= sz <==> EstimateBits(mode, n) <= payload
  {
  }

  // ----- Parity

  function Parity(s: Bytes): Byte {
    if s == [] then 0 else GF256.Xor(s[0], Parity(s[1..]))
  }

  /** All data bytes, without those of headers. */
  function DataOf(es: seq<Entry>): Bytes {
    if es == [] then []
    else DataOf(es[..|es| - 1]) + if es[|es| - 1].mode == Structure then [] else es[|es| - 1].data
  }

  lemma XorLaws(a: Byte, b: Byte, c: Byte)
    ensures GF256.Xor(a, b) == GF256.Xor(b, a)
    ensures GF256.Xor(GF256.Xor(a, b), c) == GF256.Xor(a, GF256.Xor(b, c))
    ensures GF256.Xor(a, 0) == a && GF256.Xor(0, a) == a
  {
    hide GF256.Of, GF256.Num, GF256.Add;
    GF256.AddLaws(GF256.Of(a), GF256.Of(b), GF256.Of(c));
    GF256.OfNum(GF256.Add(GF256.Of(a), GF256.Of(b)));
    GF256.OfNum(GF256.Add(GF256.Of(b), GF256.Of(c)));
    GF256.NumOf(a);
    ZeroByte();
    GF256.AddLaws(GF256.Of(a), GF256.ZERO, GF256.ZERO);
  }

  lemma ZeroByte()
    ensures GF256.Of(0) == GF256.ZERO
  {
  }

  lemma {:induction false} ParityAppend(s: Bytes, t: Bytes)
    ensures Parity(s + t) == GF256.Xor(Parity(s), Parity(t))
  {
    hide GF256.Xor;
    if s == [] {
      assert s + t == t;
      XorLaws(Parity(t), 0, 0);
    } else {
      assert (s + t)[1..] == s[1..] + t;
      ParityAppend(s[1..], t);
      XorLaws(s[0], Parity(s[1..]), Parity(t));
    }
  }

  predicate NoHeaders(es: seq<Entry>) {
    forall i | 0 <= i < |es| :: es[i].mode != Structure
  }

  /** QRinput_calcParity: the exclusive or of all data bytes. */
  method CalcParity(entries: seq<Entry>) returns (parity: Byte)
    ensures parity == Parity(DataOf(entries))
  {
    hide GF256.Xor;
    parity := 0;
    for l := 0 to |entries|
      invariant parity == Parity(DataOf(entries[..l]))
    {
      ghost var before := parity;
      var data := entries[l].data;
      if entries[l].mode != Structure {
        var i := |data|;
        XorLaws(before, 0, 0);
        while i > 0
          invariant 0 <= i <= |data|
          invariant parity == GF256.Xor(before, Parity(data[i..]))
        {
          i := i - 1;
          assert data[i..] == [data[i]] + data[i + 1..];
          XorLaws(before, Parity(data[i + 1..]), data[i]);
          XorLaws(Parity(data[i + 1..]), data[i], 0);
          parity := GF256.Xor(parity, data[i]);
        }
      }
      assert data[0..] == data && entries[..l + 1][..l] == entries[..l];
      assert DataOf(entries[..l]) + [] == DataOf(entries[..l]);
      ParityAppend(DataOf(entries[..l]), data);
    }
    assert entries[..|entries|] == entries;
  }

  // ----- Splitting

  datatype SplitError = NoCapacity | EmptyRest | TooManySymbols
  datatype Split = Symbols(parts: seq<seq<Entry>>) | Failed(reason: SplitError)

  function Joined(parts: seq<seq<Entry>>): seq<Entry> {
    if parts == [] then [] else Joined(parts[..|parts| - 1]) + parts[|parts| - 1]
  }

  /** Entries of one symbol, and their bits. */
  predicate Part(es: seq<Entry>, version: Version, maxbits: nat) {
    Good(es) && NoHeaders(es) && |EncodedAll(es, version)| <= maxbits
  }

  /** The smallest size an entry can be cut to. */
  function FirstSize(mode: Mode): nat {
    if mode == Kanji then 2 else 1
  }

  /** A part with no room for another character of a mode. */
  predicate Full(part: seq<Entry>, version: Version, maxbits: nat, mode: Mode) {
    Good(part) && |EncodedAll(part, version)| + SegmentBits(mode, version, FirstSize(mode)) > maxbits
  }

  predicate ClosedAt(parts: seq<seq<Entry>>, i: nat, version: Version, maxbits: nat)
    requires i < |parts| - 1
  {
    parts[i + 1] != [] && Full(parts[i], version, maxbits, parts[i + 1][0].mode)
  }

  /** Every part is closed only when it is full for the character that opens the next. */
  ghost predicate Closed(parts: seq<seq<Entry>>, version: Version, maxbits: nat, next: seq<Entry>) {
    && (forall i | 0 <= i < |parts| - 1 :: ClosedAt(parts, i, version, maxbits))
    && (parts != [] ==> next != [] && Full(parts[|parts| - 1], version, maxbits, next[0].mode))
  }

  lemma ClosedSnoc(parts: seq<seq<Entry>>, version: Version, maxbits: nat, p: seq<Entry>, rest: seq<Entry>)
    requires Closed(parts, version, maxbits, p + rest) && (p == [] ==> rest == [])
    ensures forall i | 0 <= i < |parts| :: ClosedAt(parts + [p], i, version, maxbits)
  {
    hide Full;
    forall i | 0 <= i < |parts| ensures ClosedAt(parts + [p], i, version, maxbits) {
      if i < |parts| - 1 {
        assert ClosedAt(parts, i, version, maxbits);
      }
    }
  }

  /** What a reader makes of the entries, byte by byte. */
  function TaggedRead(es: seq<Entry>): seq<(Mode, Byte)> {
    if Good(es) then Tagged(AsRead(es)) else []
  }

  /** The same bytes, for the program and for a reader. */
  predicate SameData(es: seq<Entry>, fs: seq<Entry>) {
    Tagged(es) == Tagged(fs) && TaggedRead(es) == TaggedRead(fs)
  }

  /** What the loop of the splitter keeps: finished parts, the part in work, and the entries still to place. */
  ghost predicate Progress(all: seq<Entry>, version: Version, maxbits: nat,
                           parts: seq<seq<Entry>>, current: seq<Entry>, rest: seq<Entry>) {
    && (forall i | 0 <= i < |parts| :: Part(parts[i], version, maxbits))
    && Part(current, version, maxbits)
    && Good(Joined(parts)) && Good(rest) && NoHeaders(rest)
    && SameData(Joined(parts) + current + rest, all)
    && Closed(parts, version, maxbits, current + rest)
  }

  lemma JoinedNext(parts: seq<seq<Entry>>, p: seq<Entry>)
    ensures Joined(parts + [p]) == Joined(parts) + p
  {
    assert (parts + [p])[..|parts|] == parts;
  }

  /** The entry fits and joins the current part. */
  lemma KeepStep(all: seq<Entry>, version: Version, level: Level, maxbits: nat,
                 parts: seq<seq<Entry>>, current: seq<Entry>, rest: seq<Entry>)
    requires version >= 1 && maxbits <= 8 * DataLength(version, level)
    requires Progress(all, version, maxbits, parts, current, rest) && rest != []
    requires |EncodedAll(current, version)| + EstimateEntry(rest[0], version) <= maxbits
    ensures Progress(all, version, maxbits, parts, current + [rest[0]], rest[1..])
    ensures |EncodedAll(current + [rest[0]], version)|
         == |EncodedAll(current, version)| + |Encoded(rest[0], version)|
  {
    hide EncodedAll, Encoded, EstimateEntry, GoodEntry, DataLength, SameData, Joined;
    FittingIsPiece(rest[0], version, level);
    EncodedAllAppend(current, rest[0], version);
    assert Joined(parts) + (current + [rest[0]]) + rest[1..] == Joined(parts) + current + rest;
    assert (current + [rest[0]]) + rest[1..] == current + rest;
  }

  /** The part is finished, and the entry starts the next one. */
  lemma MoveStep(all: seq<Entry>, version: Version, maxbits: nat,
                 parts: seq<seq<Entry>>, current: seq<Entry>, rest: seq<Entry>)
    requires Progress(all, version, maxbits, parts, current, rest)
    requires current != [] && rest != [] && Full(current, version, maxbits, rest[0].mode)
    ensures Progress(all, version, maxbits, parts + [current], [], rest)
  {
    hide SameData, Joined, Part, Good, NoHeaders, Full;
    JoinedNext(parts, current);
    PartIsGood(current, version, maxbits);
    GoodAppend(Joined(parts), current);
    assert Joined(parts) + current + [] + rest == Joined(parts) + current + rest;
    assert [] + rest == rest;
    ClosedSnoc(parts, version, maxbits, current, rest);
    EmptyPart(version, maxbits);
  }

  lemma EmptyPart(version: Version, maxbits: nat)
    ensures Part([], version, maxbits)
  {
  }

  lemma PartIsGood(es: seq<Entry>, version: Version, maxbits: nat)
    requires Part(es, version, maxbits)
    ensures Good(es)
  {
  }

  lemma GoodAppend(es: seq<Entry>, fs: seq<Entry>)
    requires Good(es) && Good(fs)
    ensures Good(es + fs)
  {
    hide GoodEntry;
  }

  lemma NothingEncoded(version: Version)
    ensures Good([]) && EncodedAll([], version) == []
  {
  }

  lemma TaggedCut(before: seq<Entry>, e: Entry, k: nat, after: seq<Entry>)
    requires k <= |e.data|
    ensures Tagged(before + [Entry(e.mode, e.data[..k])] + ([Entry(e.mode, e.data[k..])] + after))
         == Tagged(before + ([e] + after))
  {
    hide Tag;
    var a, b := Entry(e.mode, e.data[..k]), Entry(e.mode, e.data[k..]);
    TaggedAppend(before + [a], [b] + after);
    TaggedAppend(before, [a]);
    TaggedAppend(before, [e] + after);
    TaggedAppend([b], after);
    TaggedAppend([e], after);
    TaggedOne(a);
    TaggedOne(b);
    TaggedOne(e);
    TagCut(e, k);
    assert (Tagged(before) + Tag(a)) + (Tag(b) + Tagged(after)) == Tagged(before) + ((Tag(a) + Tag(b)) + Tagged(after));
  }

  lemma {:induction false} TaggedReadAppend(es: seq<Entry>, fs: seq<Entry>)
    requires Good(es) && Good(fs)
    ensures Good(es + fs) && TaggedRead(es + fs) == TaggedRead(es) + TaggedRead(fs)
  {
    hide GoodEntry, EntryRead, Tag;
    GoodAppend(es, fs);
    if es == [] {
      assert es + fs == fs;
    } else {
      TaggedReadAppend(es[1..], fs);
      assert (es + fs)[1..] == es[1..] + fs;
      AsReadFirst(es);
      AsReadFirst(es + fs);
    }
  }

  lemma AsReadFirst(es: seq<Entry>)
    requires Good(es) && es != []
    ensures TaggedRead(es) == Tag(EntryRead(es[0])) + TaggedRead(es[1..])
  {
    hide GoodEntry, EntryRead, Tag;
    assert AsRead(es)[1..] == AsRead(es[1..]);
  }

  /** A cut changes nothing for a reader either. */
  lemma TaggedReadCut(before: seq<Entry>, e: Entry, k: nat, after: seq<Entry>)
    requires Good(before) && GoodEntry(e) && Good(after) && e.mode != Structure
    requires 0 < k < |e.data| && (e.mode == Kanji ==> k % 2 == 0)
    ensures TaggedRead(before + [Entry(e.mode, e.data[..k])] + ([Entry(e.mode, e.data[k..])] + after))
         == TaggedRead(before + ([e] + after))
  {
    hide Tag, EntryRead, GoodEntry, TaggedRead;
    var a, b := Entry(e.mode, e.data[..k]), Entry(e.mode, e.data[k..]);
    EntryReadCut(e, k);
    TaggedReadAppend(before, [a]);
    TaggedReadAppend([b], after);
    TaggedReadAppend(before + [a], [b] + after);
    TaggedReadAppend([e], after);
    TaggedReadAppend(before, [e] + after);
    TaggedReadOne(a);
    TaggedReadOne(b);
    TaggedReadOne(e);
    assert (TaggedRead(before) + Tag(EntryRead(a))) + (Tag(EntryRead(b)) + TaggedRead(after))
        == TaggedRead(before) + ((Tag(EntryRead(a)) + Tag(EntryRead(b))) + TaggedRead(after));
  }

  lemma TaggedReadOne(e: Entry)
    requires GoodEntry(e)
    ensures TaggedRead([e]) == Tag(EntryRead(e))
  {
    hide GoodEntry, EntryRead;
    TaggedOne(EntryRead(e));
    assert AsRead([e]) == [EntryRead(e)] + AsRead([e][1..]);
    assert AsRead([e]) == [EntryRead(e)];
  }

  lemma TaggedOne(e: Entry)
    ensures Tagged([e]) == Tag(e)
  {
    assert [e][1..] == [];
  }

  /** The entry is cut: its front completes the part, its back starts the next one. */
  lemma CutStep(all: seq<Entry>, version: Version, level: Level, maxbits: nat,
                parts: seq<seq<Entry>>, current: seq<Entry>, rest: seq<Entry>, k: nat)
    requires version >= 1
    requires Progress(all, version, maxbits, parts, current, rest) && rest != []
    requires Size(rest[0].mode, version, k) && k < |rest[0].data|
    requires |EncodedAll(current, version)| + SegmentBits(rest[0].mode, version, k) <= maxbits
    requires forall n: nat | Size(rest[0].mode, version, n) && n > k ::
               |EncodedAll(current, version)| + SegmentBits(rest[0].mode, version, n) > maxbits
    requires maxbits <= 8 * DataLength(version, level)
    ensures var e := rest[0];
      Progress(all, version, maxbits, parts + [current + [Entry(e.mode, e.data[..k])]], [],
               [Entry(e.mode, e.data[k..])] + rest[1..])
  {
    hide EncodedAll, Encoded, Tagged, TaggedRead, Joined, Encodable, SegmentBits, DataLength, MaximumWords, Closed;
    var e := rest[0];
    var a, b := Entry(e.mode, e.data[..k]), Entry(e.mode, e.data[k..]);
    EncodableParts(e.mode, e.data, k);
    CutBits(a, version);
    EncodedAllAppend(current, a, version);
    NothingEncoded(version);
    JoinedNext(parts, current + [a]);
    assert rest == [e] + rest[1..];
    GoodAppend(Joined(parts), current);
    GoodAppend(Joined(parts), current + [a]);
    TaggedCut(Joined(parts) + current, e, k, rest[1..]);
    TaggedReadCut(Joined(parts) + current, e, k, rest[1..]);
    assert Joined(parts + [current + [a]]) + [] + ([b] + rest[1..])
        == (Joined(parts) + current) + [a] + ([b] + rest[1..]);
    assert Joined(parts) + current + rest == (Joined(parts) + current) + ([e] + rest[1..]);
    FullAfterCut(e.mode, version, level, maxbits, |EncodedAll(current, version)|, k);
    ClosedNext(parts, version, maxbits, current, a, rest, b);
  }

  /** After the cut there is no room for one more character, not even in a segment of its own. */
  lemma FullAfterCut(mode: Mode, version: Version, level: Level, maxbits: nat, bits: nat, k: nat)
    requires version >= 1 && maxbits <= 8 * DataLength(version, level)
    requires Size(mode, version, k) && bits + SegmentBits(mode, version, k) <= maxbits
    requires forall n: nat | Size(mode, version, n) && n > k :: bits + SegmentBits(mode, version, n) > maxbits
    ensures bits + SegmentBits(mode, version, k) + SegmentBits(mode, version, FirstSize(mode)) > maxbits
  {
    hide DataLength, MaximumWords, LengthIndicator;
    GroupCapacity(version, level);
    WordsInGroup(mode, version);
    EstimateAtLeast(mode, k);
    assert Size(mode, version, k + FirstSize(mode));
  }

  lemma ClosedNext(parts: seq<seq<Entry>>, version: Version, maxbits: nat, current: seq<Entry>, a: Entry,
      rest: seq<Entry>, b: Entry)
    requires rest != [] && a.mode == b.mode == rest[0].mode
    requires Closed(parts, version, maxbits, current + rest)
    requires Full(current + [a], version, maxbits, b.mode)
    ensures Closed(parts + [current + [a]], version, maxbits, [] + ([b] + rest[1..]))
  {
    hide Full;
    assert (current + rest)[0].mode == ((current + [a]) + [])[0].mode;
    ClosedSnoc(parts, version, maxbits, current + [a], []);
  }

  lemma CutBits(a: Entry, version: Version)
    requires version >= 1 && GoodEntry(a) && Size(a.mode, version, |a.data|)
    ensures |Encoded(a, version)| == SegmentBits(a.mode, version, |a.data|)
  {
    hide Encodable, Payload, BitsHigh;
    EncodedParts(a, version);
    PieceIs(a, version);
    PayloadLength(a.mode, a.data);
  }

  /** In an empty part there is always room for a first character. */
  lemma RoomAtStart(mode: Mode, version: Version, level: Level)
    requires version >= 1 && mode != Structure
    ensures Size(mode, version, FirstSize(mode))
    ensures SegmentBits(mode, version, FirstSize(mode)) <= 8 * DataLength(version, level) - STRUCTURE_HEADER_SIZE
  {
    hide DataLength, MaximumWords;
    WordsPositive(mode, version);
    CapacityMonotone(1, version, level);
    CapacityAtEnds(level);
  }

  /** An entry that is estimated not to fit, but would be cut behind its end: only long Kanji. */
  lemma CutInside(e: Entry, version: Version, room: int, k: nat)
    requires GoodEntry(e) && version >= 1 && e.mode != Structure
    requires EstimateEntry(e, version) > room
    requires k == 0 || Size(e.mode, version, k)
    requires forall n: nat | Size(e.mode, version, n) :: n <= k <==> SegmentBits(e.mode, version, n) <= room
    ensures e.mode != Kanji ==> k < |e.data|
  {
    hide Encodable, EstimateBits, Pow2, LengthIndicator;
    if e.mode != Kanji && |e.data| <= MaximumWords(e.mode, version) {
      EstimateOfOne(e, version);
      assert Size(e.mode, version, |e.data|);
    }
  }

  lemma EstimateOfOne(e: Entry, version: Version)
    requires GoodEntry(e) && version >= 1 && e.mode != Structure && e.mode != Kanji
    requires |e.data| <= MaximumWords(e.mode, version)
    ensures EstimateEntry(e, version) == SegmentBits(e.mode, version, |e.data|)
  {
    hide Pow2, EstimateBits, LengthIndicator, Encodable;
  }

  /** The bytes still to place: what the loop uses up. */
  function Remaining(es: seq<Entry>): nat {
    if es == [] then 0 else |es[0].data| + Remaining(es[1..])
  }

  /** QRinput_splitEntry: fails when the second half would be empty, or refused by the check. */
  method SplitEntry(entry: Entry, bytes: nat) returns (halves: Option<(Entry, Entry)>)
    ensures halves.Some? <==> bytes < |entry.data| && Check(entry.mode, entry.data[bytes..])
    ensures halves.Some? ==>
      var (a, b) := halves.value;
      a.mode == b.mode == entry.mode && |a.data| == bytes && Tag(a) + Tag(b) == Tag(entry)
  {
    if |entry.data| - bytes <= 0 {
      return None;
    }
    var e := Entry(entry.mode, entry.data[bytes..]);
    if !Check(e.mode, e.data) {
      return None;
    }
    TagCut(entry, bytes);
    return Some((Entry(entry.mode, entry.data[..bytes]), e));
  }

  lemma HalvesAre(entry: Entry, bytes: nat, a: Entry, b: Entry)
    requires bytes <= |entry.data|
    requires a.mode == b.mode == entry.mode && |a.data| == bytes && Tag(a) + Tag(b) == Tag(entry)
    ensures a == Entry(entry.mode, entry.data[..bytes]) && b == Entry(entry.mode, entry.data[bytes..])
  {
    var x, y := Entry(entry.mode, entry.data[..bytes]), Entry(entry.mode, entry.data[bytes..]);
    TagCut(entry, bytes);
    assert (Tag(a) + Tag(b))[..bytes] == Tag(a) && (Tag(a) + Tag(b))[bytes..] == Tag(b);
    assert (Tag(x) + Tag(y))[..bytes] == Tag(x) && (Tag(x) + Tag(y))[bytes..] == Tag(y);
    TagIsData(a, x);
    TagIsData(b, y);
  }

  // ----- What the loop of the splitter computes

  /** Finished parts, the part in work, and the entries still to place. */
  datatype Splitting = Splitting(parts: seq<seq<Entry>>, current: seq<Entry>, rest: seq<Entry>)

  datatype Division = Divided(parts: seq<seq<Entry>>) | Stuck(at: Splitting)

  predicate Sound(s: Splitting) {
    Good(s.current) && Good(s.rest) && NoHeaders(s.rest)
  }

  /** An empty part has room for one character of any mode. */
  predicate Roomy(version: Version, maxbits: int) {
    forall mode: Mode | mode != Structure :: SizeFits(mode, version, maxbits, FirstSize(mode))
  }

  predicate NextFits(s: Splitting, version: Version, maxbits: int)
    requires Sound(s) && s.rest != []
  {
    |EncodedAll(s.current, version)| + EstimateEntry(s.rest[0], version) <= maxbits
  }

  /** How much of the next entry the part in work could take. */
  function NextCut(s: Splitting, version: Version, maxbits: int): nat
    requires Sound(s) && s.rest != []
  {
    LengthFor(s.rest[0].mode, version, maxbits - |EncodedAll(s.current, version)|)
  }

  /** The next entry is estimated not to fit, and the cut that is to make it fit lies behind its end. */
  predicate NothingLeft(s: Splitting, version: Version, maxbits: int)
    requires Sound(s) && s.rest != []
  {
    !NextFits(s, version, maxbits) && |s.rest[0].data| <= NextCut(s, version, maxbits)
  }

  /** One round of the loop. */
  function Round(s: Splitting, version: Version, maxbits: int): Splitting
    requires Sound(s) && s.rest != [] && !NothingLeft(s, version, maxbits)
  {
    var e, k := s.rest[0], NextCut(s, version, maxbits);
    if NextFits(s, version, maxbits) then Splitting(s.parts, s.current + [e], s.rest[1..])
    else if k > 0 then
      Splitting(s.parts + [s.current + [Entry(e.mode, e.data[..k])]], [], [Entry(e.mode, e.data[k..])] + s.rest[1..])
    else Splitting(s.parts + [s.current], [], s.rest)
  }

  lemma RoundIsSound(s: Splitting, version: Version, maxbits: int)
    requires Sound(s) && s.rest != [] && !NothingLeft(s, version, maxbits)
    ensures Sound(Round(s, version, maxbits))
    ensures var e, k := s.rest[0], NextCut(s, version, maxbits);
      !NextFits(s, version, maxbits) && k > 0 ==>
        && Size(e.mode, version, k) && k < |e.data|
        && GoodEntry(Entry(e.mode, e.data[..k])) && GoodEntry(Entry(e.mode, e.data[k..]))
        && Check(e.mode, e.data[k..])
  {
    hide Encodable, EncodedAll, EstimateEntry, LengthFor, SegmentBits;
    var e, k := s.rest[0], NextCut(s, version, maxbits);
    if !NextFits(s, version, maxbits) && k > 0 {
      EncodableParts(e.mode, e.data, k);
      EncodableIsChecked(e.mode, e.data[k..]);
    }
  }

  lemma EncodableIsChecked(mode: Mode, data: Bytes)
    requires Encodable(mode, data) && data != []
    ensures Check(mode, data)
  {
  }

  lemma RoundDecreases(s: Splitting, version: Version, maxbits: int)
    requires Sound(s) && s.rest != [] && !NothingLeft(s, version, maxbits) && Roomy(version, maxbits)
    ensures var t := Round(s, version, maxbits);
      Remaining(t.rest) < Remaining(s.rest) || (Remaining(t.rest) == Remaining(s.rest) && |t.current| < |s.current|)
  {
    hide EncodedAll, EstimateEntry, LengthFor, GoodEntry, SegmentBits;
    var e, k := s.rest[0], NextCut(s, version, maxbits);
    RoundIsSound(s, version, maxbits);
    DataNotEmpty(e);
    if NextFits(s, version, maxbits) {
    } else if k > 0 {
      RemainingCut(s.rest, k, Entry(e.mode, e.data[k..]));
    } else {
      NothingEncoded(version);
      assert s.current == [] ==> SizeFits(e.mode, version, maxbits, FirstSize(e.mode));
    }
  }

  lemma DataNotEmpty(e: Entry)
    requires GoodEntry(e)
    ensures e.data != []
  {
  }

  /** The whole loop, from any state of it. */
  function Divide(s: Splitting, version: Version, maxbits: int): Division
    requires Sound(s) && Roomy(version, maxbits)
    decreases Remaining(s.rest), |s.current|
  {
    if s.rest == [] then Divided(s.parts + [s.current])
    else if NothingLeft(s, version, maxbits) then Stuck(s)
    else
      RoundIsSound(s, version, maxbits);
      RoundDecreases(s, version, maxbits);
      Divide(Round(s, version, maxbits), version, maxbits)
  }

  function Start(all: seq<Entry>): Splitting {
    Splitting([], [], all)
  }

  lemma RoomyAt(version: Version, level: Level)
    requires version >= 1
    ensures Roomy(version, MaxBits(version, level))
  {
    hide SegmentBits, Size, DataLength;
    forall mode: Mode | mode != Structure ensures SizeFits(mode, version, MaxBits(version, level), FirstSize(mode)) {
      RoomAtStart(mode, version, level);
    }
  }

  /** The outcome of a split of these entries. */
  function SplitResult(all: seq<Entry>, version: Version, level: Level): Split
    requires Good(all) && NoHeaders(all)
  {
    if version == 0 then Failed(NoCapacity)
    else
      RoomyAt(version, level);
      match Divide(Start(all), version, MaxBits(version, level))
      case Stuck(_) => Failed(EmptyRest)
      case Divided(parts) =>
        if |parts| > MAX_STRUCTURED_SYMBOLS then Failed(TooManySymbols)
        else
          var parity := Parity(DataOf(all));
          Symbols(seq(|parts|, i requires 0 <= i < |parts| => WithHeader(parts[i], |parts|, i + 1, parity)))
  }

  lemma RoundKeeps(all: seq<Entry>, version: Version, level: Level, s: Splitting)
    requires version >= 1 && MaxBits(version, level) >= 0 && Roomy(version, MaxBits(version, level))
    requires Progress(all, version, MaxBits(version, level), s.parts, s.current, s.rest)
    requires Sound(s) && s.rest != [] && !NothingLeft(s, version, MaxBits(version, level))
    ensures var t := Round(s, version, MaxBits(version, level));
      Progress(all, version, MaxBits(version, level), t.parts, t.current, t.rest)
  {
    hide EncodedAll, EstimateEntry, LengthFor, GoodEntry, SegmentBits, Size, Progress, DataLength, Full;
    var maxbits: nat := MaxBits(version, level);
    var e, k := s.rest[0], NextCut(s, version, maxbits);
    var bits := |EncodedAll(s.current, version)|;
    RoundIsSound(s, version, maxbits);
    if NextFits(s, version, maxbits) {
      KeepStep(all, version, level, maxbits, s.parts, s.current, s.rest);
    } else if k > 0 {
      assert SizeFits(e.mode, version, maxbits - bits, k);
      forall n: nat | Size(e.mode, version, n) && n > k ensures bits + SegmentBits(e.mode, version, n) > maxbits {
        assert !SizeFits(e.mode, version, maxbits - bits, n);
      }
      CutStep(all, version, level, maxbits, s.parts, s.current, s.rest, k);
    } else {
      NothingEncoded(version);
      assert SizeFits(e.mode, version, maxbits, FirstSize(e.mode));
      assert !SizeFits(e.mode, version, maxbits - bits, FirstSize(e.mode));
      NoRoomIsFull(s.current, version, maxbits, e.mode);
      MoveStep(all, version, maxbits, s.parts, s.current, s.rest);
    }
  }

  /** A division that ends packs the input; one that gets stuck does so at a Kanji entry. */
  lemma {:induction false} DivisionPacks(all: seq<Entry>, version: Version, level: Level, s: Splitting)
    requires version >= 1 && MaxBits(version, level) >= 0 && Roomy(version, MaxBits(version, level)) && Sound(s)
    requires Progress(all, version, MaxBits(version, level), s.parts, s.current, s.rest)
    ensures match Divide(s, version, MaxBits(version, level))
      case Divided(parts) => Packed(all, version, MaxBits(version, level), parts)
      case Stuck(t) =>
        && Progress(all, version, MaxBits(version, level), t.parts, t.current, t.rest)
        && Sound(t) && t.rest != [] && t.rest[0].mode == Kanji && NothingLeft(t, version, MaxBits(version, level))
    decreases Remaining(s.rest), |s.current|
  {
    hide Progress, Packed, NothingLeft, Round, Roomy, DataLength;
    var maxbits: nat := MaxBits(version, level);
    if s.rest == [] {
      FinishStep(all, version, maxbits, s.parts, s.current);
    } else if NothingLeft(s, version, maxbits) {
      StuckIsKanji(s, version, maxbits);
    } else {
      RoundIsSound(s, version, maxbits);
      RoundDecreases(s, version, maxbits);
      RoundKeeps(all, version, level, s);
      DivisionPacks(all, version, level, Round(s, version, maxbits));
    }
  }

  lemma StuckIsKanji(s: Splitting, version: Version, maxbits: int)
    requires version >= 1 && Sound(s) && s.rest != [] && NothingLeft(s, version, maxbits)
    ensures s.rest[0].mode == Kanji
  {
    hide EncodedAll, EstimateEntry, LengthFor, GoodEntry, SegmentBits, Size;
    var e, room := s.rest[0], maxbits - |EncodedAll(s.current, version)|;
    LengthForAdjoint(e.mode, version, room);
    CutInside(e, version, room, NextCut(s, version, maxbits));
  }

  lemma LengthForAdjoint(mode: Mode, version: Version, bits: int)
    ensures forall n: nat | Size(mode, version, n) ::
              n <= LengthFor(mode, version, bits) <==> SegmentBits(mode, version, n) <= bits
  {
    hide MaximumWords, LargestSize, LengthIndicator;
    var k := LengthFor(mode, version, bits);
    forall n: nat | Size(mode, version, n) ensures n <= k <==> SegmentBits(mode, version, n) <= bits {
      assert n > k ==> !SizeFits(mode, version, bits, n);
      if n <= k {
        assert SizeFits(mode, version, bits, k);
        EstimateMonotone(mode, n, k);
      }
    }
  }

  lemma EstimateMonotone(mode: Mode, n: nat, k: nat)
    requires n <= k
    ensures EstimateBits(mode, n) <= EstimateBits(mode, k)
  {
  }

  /** No Kanji entry is long enough for the estimate to count more segments than it needs. */
  predicate ShortKanji(es: seq<Entry>, version: Version) {
    forall i | 0 <= i < |es| && es[i].mode == Kanji :: |es[i].data| <= Pow2(LengthIndicator(Kanji, version))
  }

  /** With short Kanji entries, and so with none at all, the splitter never gets stuck. */
  lemma {:induction false} NeverStuck(s: Splitting, version: Version, maxbits: int)
    requires version >= 1 && Sound(s) && Roomy(version, maxbits) && ShortKanji(s.rest, version)
    ensures Divide(s, version, maxbits).Divided?
    decreases Remaining(s.rest), |s.current|
  {
    hide NothingLeft, Roomy, LengthIndicator, EncodedAll, EstimateEntry, NextCut;
    if s.rest != [] {
      NotStuckHere(s, version, maxbits);
      RoundIsSound(s, version, maxbits);
      RoundDecreases(s, version, maxbits);
      NeverStuck(Round(s, version, maxbits), version, maxbits);
    }
  }

  lemma NotStuckHere(s: Splitting, version: Version, maxbits: int)
    requires version >= 1 && Sound(s) && s.rest != [] && ShortKanji(s.rest, version)
    ensures !NothingLeft(s, version, maxbits)
  {
    hide EncodedAll, LengthFor, Pow2, LengthIndicator, EstimateEntry, SegmentBits, Size;
    if NothingLeft(s, version, maxbits) {
      var e, room := s.rest[0], maxbits - |EncodedAll(s.current, version)|;
      StuckIsKanji(s, version, maxbits);
      LengthForAdjoint(Kanji, version, room);
      ShortEstimate(e, version);
      assert false;
    }
  }

  lemma ShortEstimate(e: Entry, version: Version)
    requires version >= 1 && GoodEntry(e) && e.mode == Kanji && |e.data| <= Pow2(LengthIndicator(Kanji, version))
    ensures Size(Kanji, version, |e.data|)
    ensures EstimateEntry(e, version) == SegmentBits(Kanji, version, |e.data|)
  {
    hide Pow2, EstimateBits, LengthIndicator;
    WordsPositive(Kanji, version);
  }

  /** A header says how many symbols there are, which one this is, and the parity of all the data. */
  function WithHeader(part: seq<Entry>, size: Byte, number: Byte, parity: Byte): seq<Entry> {
    [Entry(Structure, [size, number, parity])] + part
  }

  /**
   * What a split means: at most sixteen symbols, each within its capacity, that hold all bytes of the
   * input with their modes, in order, behind headers that number them and carry the parity.
   */
  ghost predicate SplitOf(all: seq<Entry>, version: Version, level: Level, symbols: seq<seq<Entry>>) {
    exists parts ::
      && |parts| == |symbols| <= MAX_STRUCTURED_SYMBOLS
      && Packed(all, version, MaxBits(version, level), parts)
      && forall i | 0 <= i < |parts| ::
           && symbols[i] == WithHeader(parts[i], |parts|, i + 1, Parity(DataOf(all)))
           && Good(symbols[i])
           && |EncodedAll(symbols[i], version)| <= 8 * DataLength(version, level)
  }

  /**
   * Parts as the splitter makes them: they hold all bytes with their modes, each fits, and each but the
   * last has no room for the first character of the next.
   */
  ghost predicate Packed(all: seq<Entry>, version: Version, maxbits: int, parts: seq<seq<Entry>>) {
    && parts != [] && maxbits >= 0
    && SameData(Joined(parts), all)
    && (forall i | 0 <= i < |parts| :: Part(parts[i], version, maxbits))
    && forall i | 0 <= i < |parts| - 1 :: ClosedAt(parts, i, version, maxbits)
  }

  function MaxBits(version: Version, level: Level): int {
    DataLength(version, level) * 8 - STRUCTURE_HEADER_SIZE
  }

  /**
   * QRinput_splitQRinputToStruct. It fails for want of an empty rest exactly where the loop comes to a
   * long Kanji entry as NothingLeft describes it.
   */
  method SplitQRinputToStruct(input: QRInput) returns (r: Split)
    requires input.Valid() && NoHeaders(input.entries)
    ensures r == SplitResult(input.entries, input.version, input.level)
    ensures r == Failed(NoCapacity) <==> input.version == 0
    ensures r == Failed(EmptyRest) ==> !ShortKanji(input.entries, input.version)
    ensures r == Failed(TooManySymbols) ==>
              exists parts :: |parts| > MAX_STRUCTURED_SYMBOLS
                && Packed(input.entries, input.version, MaxBits(input.version, input.level), parts)
    ensures r.Symbols? ==> SplitOf(input.entries, input.version, input.level, r.parts)
  {
    hide SplitResult, Divide, Tag, EncodedAll, Encoded, EstimateEntry, DataLength, Packed, SplitOf;
    hide Parity, Sound, Roomy, ShortKanji, GoodEntry, LengthFor, WithHeader, Check;
    var version, level, all := input.version, input.level, input.entries;
    var parity := CalcParity(all);
    var maxbits := DataLength(version, level) * 8 - STRUCTURE_HEADER_SIZE;
    NoRoom(version, level);
    SplitMeans(all, version, level);
    if maxbits <= 0 {
      return Failed(NoCapacity);
    }
    RoomyAt(version, level);
    var parts: seq<seq<Entry>>, current: seq<Entry>, list, bits := [], [], all, 0;
    NothingEncoded(version);
    StartIsSound(all);
    ghost var s := Start(all);
    while list != []
      invariant s == Splitting(parts, current, list) && Sound(s) && Good(current)
      invariant bits == |EncodedAll(current, version)|
      invariant Divide(s, version, maxbits) == Divide(Start(all), version, maxbits)
      decreases Remaining(list), |current|
    {
      SoundParts(s);
      DivideStep(s, version, maxbits);
      var e := list[0];
      var nextbits := EstimateEntry(e, version);
      if bits + nextbits <= maxbits {
        var bstream := EncodeBitStream(e, version);
        EncodedAllAppend(current, e, version);
        bits := bits + |bstream.data|;
        current, list := current + [e], list[1..];
      } else {
        var bytes := LengthOfCode(e.mode, version, maxbits - bits);
        if bytes > 0 {
          var halves := SplitEntry(e, bytes);
          if halves == None {
            SplitResultIs(all, version, level);
            return Failed(EmptyRest);
          }
          HalvesAre(e, bytes, halves.value.0, halves.value.1);
          parts := parts + [current + [halves.value.0]];
          list := [halves.value.1] + list[1..];
        } else {
          parts := parts + [current];
        }
        current, bits := [], 0;
      }
      s := Round(s, version, maxbits);
      SoundParts(s);
    }
    DivideStep(s, version, maxbits);
    SplitResultIs(all, version, level);
    parts := parts + [current];
    if |parts| > MAX_STRUCTURED_SYMBOLS {
      return Failed(TooManySymbols);
    }
    var symbols := InsertHeaders(parts, parity);
    r := Symbols(symbols);
  }

  /** One unfolding of the loop. */
  lemma DivideStep(s: Splitting, version: Version, maxbits: int)
    requires Sound(s) && Roomy(version, maxbits)
    ensures s.rest == [] ==> Divide(s, version, maxbits) == Divided(s.parts + [s.current])
    ensures s.rest != [] && NothingLeft(s, version, maxbits) ==> Divide(s, version, maxbits) == Stuck(s)
    ensures s.rest != [] && !NothingLeft(s, version, maxbits) ==>
      var t := Round(s, version, maxbits);
      && Sound(t) && Divide(s, version, maxbits) == Divide(t, version, maxbits)
      && (|| Remaining(t.rest) < Remaining(s.rest)
          || (Remaining(t.rest) == Remaining(s.rest) && |t.current| < |s.current|))
      && (!NextFits(s, version, maxbits) && NextCut(s, version, maxbits) > 0 ==>
            Check(s.rest[0].mode, s.rest[0].data[NextCut(s, version, maxbits)..]))
  {
    hide Sound, Roomy, NextCut, NextFits, Round, Check, GoodEntry;
    if s.rest != [] && !NothingLeft(s, version, maxbits) {
      RoundIsSound(s, version, maxbits);
      RoundDecreases(s, version, maxbits);
    }
  }

  lemma SplitResultIs(all: seq<Entry>, version: Version, level: Level)
    requires version >= 1 && Good(all) && NoHeaders(all)
    ensures Sound(Start(all)) && Roomy(version, MaxBits(version, level))
    ensures match Divide(Start(all), version, MaxBits(version, level))
      case Stuck(_) => SplitResult(all, version, level) == Failed(EmptyRest)
      case Divided(parts) =>
        if |parts| > MAX_STRUCTURED_SYMBOLS then SplitResult(all, version, level) == Failed(TooManySymbols)
        else forall symbols: seq<seq<Entry>> |
               && |symbols| == |parts|
               && forall i | 0 <= i < |parts| ::
                    symbols[i] == WithHeader(parts[i], |parts|, i + 1, Parity(DataOf(all))) ::
               SplitResult(all, version, level) == Symbols(symbols)
  {
    hide Divide, DataLength, Roomy, WithHeader, Parity;
    RoomyAt(version, level);
    var d := Divide(Start(all), version, MaxBits(version, level));
    if d.Divided? && |d.parts| <= MAX_STRUCTURED_SYMBOLS {
      forall symbols: seq<seq<Entry>> |
        && |symbols| == |d.parts|
        && forall i | 0 <= i < |d.parts| :: symbols[i] == WithHeader(d.parts[i], |d.parts|, i + 1, Parity(DataOf(all)))
        ensures SplitResult(all, version, level) == Symbols(symbols)
      {
        assert symbols == SplitResult(all, version, level).parts;
      }
    }
  }

  /** What each outcome of a split means. */
  lemma SplitMeans(all: seq<Entry>, version: Version, level: Level)
    requires Good(all) && NoHeaders(all)
    ensures match SplitResult(all, version, level)
      case Failed(NoCapacity) => version == 0
      case Failed(EmptyRest) => version >= 1 && !ShortKanji(all, version)
      case Failed(TooManySymbols) =>
        && version >= 1
        && exists parts :: |parts| > MAX_STRUCTURED_SYMBOLS && Packed(all, version, MaxBits(version, level), parts)
      case Symbols(symbols) => version >= 1 && SplitOf(all, version, level, symbols)
  {
    hide Divide, DataLength, Packed, SplitOf, Progress, ShortKanji, Roomy, GoodEntry, WithHeader, Parity;
    if version >= 1 {
      NoRoom(version, level);
      var maxbits := MaxBits(version, level);
      RoomyAt(version, level);
      StartStep(all, version, maxbits);
      DivisionPacks(all, version, level, Start(all));
      var d := Divide(Start(all), version, maxbits);
      if ShortKanji(all, version) {
        NeverStuck(Start(all), version, maxbits);
      }
      if d.Divided? && |d.parts| <= MAX_STRUCTURED_SYMBOLS {
        SplitDone(all, version, level, maxbits, d.parts, SplitResult(all, version, level).parts);
      }
    }
  }

  lemma StartIsSound(all: seq<Entry>)
    requires Good(all) && NoHeaders(all)
    ensures Sound(Start(all)) && Good([])
  {
  }

  lemma SoundParts(s: Splitting)
    requires Sound(s)
    ensures Good(s.current)
    ensures s.rest != [] ==> GoodEntry(s.rest[0]) && s.rest[0].mode != Structure && s.rest[0].data != []
  {
  }

  lemma NoRoom(version: Version, level: Level)
    ensures DataLength(version, level) * 8 - STRUCTURE_HEADER_SIZE <= 0 <==> version == 0
  {
    hide DataLength;
    ZeroCapacity(level);
    if version >= 1 {
      CapacityMonotone(1, version, level);
      CapacityAtEnds(level);
    }
  }

  lemma ZeroCapacity(level: Level)
    ensures DataLength(0, level) == 0
  {
  }

  lemma StartStep(all: seq<Entry>, version: Version, maxbits: nat)
    requires Good(all) && NoHeaders(all)
    ensures Progress(all, version, maxbits, [], [], all) && Good([]) && |EncodedAll([], version)| == 0
  {
    hide Tagged;
    assert Joined([]) + [] + all == all;
  }

  lemma NoRoomIsFull(current: seq<Entry>, version: Version, maxbits: nat, mode: Mode)
    requires Good(current)
    requires |EncodedAll(current, version)| + SegmentBits(mode, version, FirstSize(mode)) > maxbits
    ensures Full(current, version, maxbits, mode)
  {
  }

  /** The last part is closed by the end of the input. */
  lemma FinishStep(all: seq<Entry>, version: Version, maxbits: nat, parts: seq<seq<Entry>>, current: seq<Entry>)
    requires Progress(all, version, maxbits, parts, current, [])
    ensures Packed(all, version, maxbits, parts + [current])
  {
    hide SameData, Joined, Part, Full;
    JoinedNext(parts, current);
    assert Joined(parts) + current + [] == Joined(parts) + current;
    assert current + [] == current;
    ClosedSnoc(parts, version, maxbits, current, []);
  }

  lemma RemainingCut(rest: seq<Entry>, k: nat, b: Entry)
    requires rest != [] && 0 < k < |rest[0].data| && b == Entry(rest[0].mode, rest[0].data[k..])
    ensures Remaining([b] + rest[1..]) < Remaining(rest)
  {
    assert ([b] + rest[1..])[1..] == rest[1..];
  }

  /** QRinput_Struct_insertStructuredAppendHeaders. */
  method InsertHeaders(parts: seq<seq<Entry>>, parity: Byte) returns (symbols: seq<seq<Entry>>)
    requires |parts| <= MAX_STRUCTURED_SYMBOLS
    ensures |symbols| == |parts|
    ensures forall i | 0 <= i < |parts| :: symbols[i] == WithHeader(parts[i], |parts|, i + 1, parity)
  {
    symbols := [];
    for i := 0 to |parts|
      invariant |symbols| == i
      invariant forall j | 0 <= j < i :: symbols[j] == WithHeader(parts[j], |parts|, j + 1, parity)
    {
      symbols := symbols + [WithHeader(parts[i], |parts|, i + 1, parity)];
    }
  }

  lemma HeaderBits(part: seq<Entry>, version: Version, maxbits: nat, size: Byte, number: Byte, parity: Byte)
    requires Part(part, version, maxbits) && 1 <= number <= size <= 16
    ensures Good(WithHeader(part, size, number, parity))
    ensures |EncodedAll(WithHeader(part, size, number, parity), version)| <= maxbits + STRUCTURE_HEADER_SIZE
  {
    hide Encodable, BitsHigh, Encoded;
    var h := Entry(Structure, [size, number, parity]);
    EncodedParts(h, version);
    assert WithHeader(part, size, number, parity)[1..] == part;
  }

  lemma SplitDone(all: seq<Entry>, version: Version, level: Level, maxbits: nat, parts: seq<seq<Entry>>,
      symbols: seq<seq<Entry>>)
    requires Packed(all, version, maxbits, parts) && maxbits == MaxBits(version, level)
    requires |parts| == |symbols| <= MAX_STRUCTURED_SYMBOLS
    requires forall i | 0 <= i < |parts| :: symbols[i] == WithHeader(parts[i], |parts|, i + 1, Parity(DataOf(all)))
    ensures SplitOf(all, version, level, symbols)
  {
    hide Tagged, Joined, EncodedAll, GoodEntry, DataLength, Parity, WithHeader, Full;
    forall i | 0 <= i < |parts|
      ensures Good(symbols[i]) && |EncodedAll(symbols[i], version)| <= 8 * DataLength(version, level)
    {
      HeaderBits(parts[i], version, maxbits, |parts|, i + 1, Parity(DataOf(all)));
    }
  }

  /**
   * The splitter does get stuck: behind sixteen bytes, 129 Kanji are estimated at two segments and do
   * not fit a symbol of version 9, but one segment would do, and so the cut is at the end of the entry.
   */
  lemma KanjiMayLeaveNothing(a: Bytes, b: Bytes)
    requires |a| == 16 && |b| == 258 && AllKanji(b)
    ensures SplitResult([Entry(Eight, a), Entry(Kanji, b)], 9, L) == Failed(EmptyRest)
  {
    hide Divide, Tag, EncodedAll, EstimateEntry, LengthFor, AllKanji, GoodEntry, DataLength, WithHeader, SplitResult,
      Roomy;
    var e, k := Entry(Eight, a), Entry(Kanji, b);
    var all := [e, k];
    LongKanjiIsGood(e, k);
    LongKanjiSizes(e, k);
    SplitResultIs(all, 9, L);
    NothingEncoded(9);
    DivideStep(Start(all), 9, 1836);
    FittingIsPiece(e, 9, L);
    EncodedAllAppend([], e, 9);
    assert [] + [e] == [e] && all[1..] == [k];
    var t := Splitting([], [e], [k]);
    StuckBehind(t, 9, 1836);
    DivideStep(t, 9, 1836);
  }

  lemma StuckBehind(t: Splitting, version: Version, maxbits: int)
    requires Sound(t) && t.rest != [] && t.rest[0].mode == Kanji
    requires var k, bits := t.rest[0], |EncodedAll(t.current, version)|;
      && maxbits < bits + EstimateEntry(k, version)
      && SizeFits(Kanji, version, maxbits - bits, |k.data|)
    ensures NothingLeft(t, version, maxbits)
  {
    hide EncodedAll, EstimateEntry, LengthFor, GoodEntry;
    LengthForAdjoint(Kanji, version, maxbits - |EncodedAll(t.current, version)|);
  }

  lemma LongKanjiIsGood(e: Entry, k: Entry)
    requires e.mode == Eight && e.data != [] && k.mode == Kanji && k.data != [] && AllKanji(k.data)
    ensures GoodEntry(e) && GoodEntry(k) && Good([]) && Good([e]) && Good([e, k]) && NoHeaders([e, k])
  {
    hide AllKanji;
  }

  lemma LongKanjiSizes(e: Entry, k: Entry)
    requires e.mode == Eight && |e.data| == 16 && k.mode == Kanji && |k.data| == 258
    ensures MaxBits(9, L) == 1836 && 8 * DataLength(9, L) == 1856
    ensures EstimateEntry(e, 9) == 140 && EstimateEntry(k, 9) == 1701
    ensures Size(Kanji, 9, 258) && SegmentBits(Kanji, 9, 258) == 1689
  {
    WordsInGroup(Kanji, 9);
    assert Pow2(8) == 256;
    DivUnique(16 + 255, 256, 1, 15);
    DivUnique(258 + 255, 256, 2, 1);
  }

  // ----- Reading a set of symbols

  function TagsOf(r: Option<seq<Entry>>): seq<(Mode, Byte)> {
    if r.Some? then Tagged(r.value) else []
  }

  /** What a reader finds in symbol i of a set, whatever follows the terminator. */
  function SymbolTags(symbols: seq<seq<Entry>>, pads: seq<BitSeq>, version: Version, i: nat): seq<(Mode, Byte)>
    requires i < |symbols| && i < |pads| && Good(symbols[i])
  {
    TagsOf(DecodeStream(EncodedAll(symbols[i], version) + pads[i], version))
  }

  /** The data of the first n symbols, without the three bytes of each header. */
  function ReadSet(symbols: seq<seq<Entry>>, pads: seq<BitSeq>, version: Version, n: nat): seq<(Mode, Byte)>
    requires n <= |symbols| == |pads| && forall i | 0 <= i < n :: Good(symbols[i])
  {
    if n == 0 then []
    else
      var tags := SymbolTags(symbols, pads, version, n - 1);
      ReadSet(symbols, pads, version, n - 1) + if |tags| >= 3 then tags[3..] else []
  }

  lemma SymbolReads(part: seq<Entry>, size: Byte, number: Byte, parity: Byte, version: Version, pad: BitSeq)
    requires Good(part) && 1 <= number <= size <= 16 && Terminated(pad)
    ensures var es := WithHeader(part, size, number, parity);
      && Good(es)
      && TagsOf(DecodeStream(EncodedAll(es, version) + pad, version))
         == [(Structure, size), (Structure, number), (Structure, parity)] + TaggedRead(part)
  {
    hide Encodable, EncodedAll, DecodeStream, Tagged, Terminated, EntryRead, AllClear;
    var es, h := WithHeader(part, size, number, parity), Entry(Structure, [size, number, parity]);
    GoodAppend([h], part);
    InputRoundTrip(es, version, pad);
    AsReadFirst(es);
    assert es[1..] == part;
    HeaderTag(h);
  }

  lemma HeaderTag(h: Entry)
    requires h.mode == Structure && Header(h.data)
    ensures GoodEntry(h)
    ensures Tag(EntryRead(h)) == [(Structure, h.data[0]), (Structure, h.data[1]), (Structure, h.data[2])]
  {
    assert |Tag(h)| == 3;
  }

  /**
   * Whoever reads all symbols of a set finds in each its number, how many there are and the parity of
   * the data, and behind these, in the order of the numbers, the data: as they were exactly if no Kanji
   * has a trail byte below 0x40.
   */
  lemma SetReadsBack(all: seq<Entry>, version: Version, level: Level, symbols: seq<seq<Entry>>, pads: seq<BitSeq>)
    requires Good(all) && SplitOf(all, version, level, symbols)
    requires |pads| == |symbols| && forall i | 0 <= i < |pads| :: Terminated(pads[i])
    ensures |symbols| <= MAX_STRUCTURED_SYMBOLS && forall i | 0 <= i < |symbols| :: Good(symbols[i])
    ensures forall i | 0 <= i < |symbols| ::
              [(Structure, |symbols|), (Structure, i + 1), (Structure, Parity(DataOf(all)))]
              <= SymbolTags(symbols, pads, version, i)
    ensures ReadSet(symbols, pads, version, |symbols|) == TaggedRead(all)
    ensures ReadSet(symbols, pads, version, |symbols|) == Tagged(all) <==> AllClear(all)
  {
    hide EncodedAll, DataLength, Tagged, TaggedRead, AllClear, GoodEntry, Terminated, WithHeader, Parity, SymbolTags,
      Closed;
    var n, parity := |symbols|, Parity(DataOf(all));
    var parts :|
      && |parts| == |symbols| <= MAX_STRUCTURED_SYMBOLS
      && Packed(all, version, MaxBits(version, level), parts)
      && forall i | 0 <= i < |parts| ::
           && symbols[i] == WithHeader(parts[i], |parts|, i + 1, parity)
           && Good(symbols[i])
           && |EncodedAll(symbols[i], version)| <= 8 * DataLength(version, level);
    forall i | 0 <= i < n
      ensures SymbolTags(symbols, pads, version, i)
           == [(Structure, n), (Structure, i + 1), (Structure, parity)] + TaggedRead(parts[i])
    {
      OneSymbolReads(symbols, pads, version, i, parts[i], n, parity);
    }
    ReadSetIs(symbols, pads, version, parts, n, parity, n);
    assert parts[..n] == parts;
    ReadAllIff(all);
  }

  lemma ReadAllIff(all: seq<Entry>)
    requires Good(all)
    ensures TaggedRead(all) == Tagged(all) <==> AllClear(all)
  {
    AsReadIff(all);
  }

  lemma OneSymbolReads(symbols: seq<seq<Entry>>, pads: seq<BitSeq>, version: Version, i: nat, part: seq<Entry>,
      n: Byte, parity: Byte)
    requires i < |symbols| == |pads| && i < n <= 16 && Good(symbols[i]) && Terminated(pads[i])
    requires Good(part) && symbols[i] == WithHeader(part, n, i + 1, parity)
    ensures SymbolTags(symbols, pads, version, i) == [(Structure, n), (Structure, i + 1), (Structure, parity)]
      + TaggedRead(part)
  {
    hide EncodedAll, Tagged, AsRead, GoodEntry, Terminated, WithHeader, DecodeStream, TaggedRead;
    SymbolReads(part, n, i + 1, parity, version, pads[i]);
  }

  lemma {:induction false} ReadSetIs(symbols: seq<seq<Entry>>, pads: seq<BitSeq>, version: Version,
                                     parts: seq<seq<Entry>>,
                                     size: Byte, parity: Byte, n: nat)
    requires n <= |parts| == |symbols| == |pads|
    requires forall i | 0 <= i < |parts| :: Good(parts[i])
    requires forall i | 0 <= i < |symbols| :: Good(symbols[i])
    requires forall i | 0 <= i < |symbols| && i + 1 < 256 ::
               SymbolTags(symbols, pads, version, i)
               == [(Structure, size), (Structure, i + 1), (Structure, parity)] + TaggedRead(parts[i])
    requires |symbols| < 256
    ensures Good(Joined(parts[..n]))
    ensures ReadSet(symbols, pads, version, n) == TaggedRead(Joined(parts[..n]))
  {
    hide GoodEntry, SymbolTags, TaggedRead;
    if n == 0 {
      NothingRead();
    } else {
      ReadSetIs(symbols, pads, version, parts, size, parity, n - 1);
      assert parts[..n][..n - 1] == parts[..n - 1];
      TaggedReadAppend(Joined(parts[..n - 1]), parts[n - 1]);
      var tags := SymbolTags(symbols, pads, version, n - 1);
      assert tags[3..] == TaggedRead(parts[n - 1]);
    }
  }

  lemma NothingRead()
    ensures TaggedRead([]) == []
  {
  }
}
