/** A reader of finished symbols, who sees the colours of the modules and nothing else. */
module QRReader {
  import opened Bytes
  import opened Bits
  import opened BitStreams
  import opened QRSpec
  import opened QRSegments
  import opened Placement
  import opened QRSymbol
  import opened QRCode
  import opened QRFrameCount
  import opened MaskChoice
  import opened Bch
  import MaskScore

  // ----- Reading looks at the colours of the modules that are not reserved

  lemma ReadBlocksSame(a: seq<Byte>, b: seq<Byte>, trail: seq<nat>, n: nat, b1: nat, dl: nat, r: nat)
    requires forall m | 0 <= m < |trail| :: trail[m] < |a| && trail[m] < |b| && a[trail[m]] % 2 == b[trail[m]] % 2
    ensures ReadBlocks(a, trail, n, b1, dl, r) == ReadBlocks(b, trail, n, b1, dl, r)
  {
    hide DataPlace, Number;
    if r > 0 {
      ReadBlocksSame(a, b, trail, n, b1, dl, r - 1);
      var x, y := ReadBlock(a, trail, n, b1, dl, r - 1), ReadBlock(b, trail, n, b1, dl, r - 1);
      forall k | 0 <= k < |x| ensures x[k] == y[k] {
        ReadByteSame(a, b, trail, DataPlace(n, b1, dl, r - 1, k));
      }
      assert x == y;
    }
  }

  lemma ReadByteSame(a: seq<Byte>, b: seq<Byte>, trail: seq<nat>, c: nat)
    requires forall m | 0 <= m < |trail| :: trail[m] < |a| && trail[m] < |b| && a[trail[m]] % 2 == b[trail[m]] % 2
    ensures ReadByte(a, trail, c) == ReadByte(b, trail, c)
  {
    hide Number;
    if 8 * c + 8 <= |trail| {
      var x := seq(8, j requires 0 <= j < 8 => a[trail[8 * c + j]] % 2 == 1);
      var y := seq(8, j requires 0 <= j < 8 => b[trail[8 * c + j]] % 2 == 1);
      assert x == y;
    }
  }

  lemma SameModulesSameData(a: seq<Byte>, b: seq<Byte>, version: Version, level: Level)
    requires EmptyFrameSize(a, version) && EmptyFrameSize(b, version)
    requires forall i: nat | i < |a| :: Reserved(a, i) == Reserved(b, i)
    requires forall i: nat | i < |a| && !Reserved(a, i) :: a[i] % 2 == b[i] % 2
    ensures ReadSymbol(a, version, level) == ReadSymbol(b, version, level)
  {
    hide Trail, ReadBlocks, CapacityOf, GetEccSpec, DecodeStream, BitsOfBytes;
    WidthOf(version);
    var w := CapacityOf(version).width;
    TrailSame(a, b, w, First());
    TrailIsEveryFreeModule(a, w);
    TrailOnFrame(a, w);
    var trail, s := Trail(a, w, First()), GetEccSpec(version, level);
    forall m | 0 <= m < |trail| ensures a[trail[m]] % 2 == b[trail[m]] % 2 {
      assert trail[m] in trail;
    }
    var n := s.blocks1 + s.blocks2;
    ReadBlocksSame(a, b, trail, n, s.blocks1, s.dataCodes1, n);
  }

  // ----- The format

  function ColoursOf(symbol: seq<Byte>): (dark: seq<bool>)
    ensures |dark| == |symbol|
  {
    seq(|symbol|, k requires 0 <= k < |symbol| => symbol[k] % 2 == 1)
  }

  /** The bits of a copy of the format from bit k on. */
  function FormatWord(dark: seq<bool>, w: nat, copy: bool, k: nat): (word: nat)
    requires SymbolWidth(w) && |dark| == w * w && k <= 15
    ensures word < Pow2(15 - k)
    decreases 15 - k
  {
    if k == 15 then 0 else 2 * FormatWord(dark, w, copy, k + 1) + if dark[FormatPlace(w, k, copy)] then 1 else 0
  }

  lemma WordSize()
    ensures Pow2(15) == 0x8000
  {
    assert Pow2(12) == 4096;
    assert Pow2(14) == 16384;
  }

  function FormatSeen(dark: seq<bool>, w: nat, copy: bool): Format
    requires SymbolWidth(w) && |dark| == w * w
  {
    WordSize();
    FormatOf(FormatWord(dark, w, copy, 0))
  }

  /** A copy of the format is read as it was written. */
  lemma {:induction false} FormatRead(symbol: seq<Byte>, w: nat, format: nat, copy: bool, k: nat)
    requires SymbolWidth(w) && |symbol| == w * w && k <= 15 && format < 0x8000
    requires forall i: nat | i < 15 :: symbol[FormatPlace(w, i, copy)] == FormatModule(format, i)
    ensures FormatWord(ColoursOf(symbol), w, copy, k) == format / Pow2(k)
    decreases 15 - k
  {
    hide FormatPlace, Pow2;
    if k < 15 {
      FormatRead(symbol, w, format, copy, k + 1);
      NextPower(format, k);
      assert symbol[FormatPlace(w, k, copy)] == FormatModule(format, k);
    } else {
      WordSize();
      DivUnique(format, 0x8000, 0, format);
    }
  }

  lemma NextPower(format: nat, k: nat)
    ensures format / Pow2(k + 1) == format / Pow2(k) / 2
  {
    HalfTwice(format, Pow2(k));
  }

  // ----- The data

  /** What a reader knows of a symbol: from its size, which modules are reserved, and all colours. */
  function Seen(dark: seq<bool>, version: Version): (frame: seq<Byte>)
    requires version >= 1 && |dark| == |NewFrame(version)|
    ensures |frame| == |dark|
  {
    seq(|dark|, k requires 0 <= k < |dark| =>
      (if Reserved(NewFrame(version), k) then 0x80 else 0) + if dark[k] then 1 else 0)
  }

  predicate ColoursFor(dark: seq<bool>, version: Version) {
    version >= 1 && |dark| == |NewFrame(version)| == CapacityOf(version).width * CapacityOf(version).width
  }

  /** Takes level and mask from a copy of the format, the mask off the symbol, and the data along the path. */
  function Scan(dark: seq<bool>, version: Version, copy: bool): Option<seq<Entry>>
    requires ColoursFor(dark, version)
  {
    WidthOf(version);
    var w := CapacityOf(version).width;
    var f := FormatSeen(dark, w, copy);
    ReadSymbol(Masked(f.mask, Seen(dark, version), w), version, f.level)
  }

  /** The reader of colours reads what a reader reads who is given the bytes, the level and the mask. */
  lemma ScanIs(symbol: seq<Byte>, version: Version, level: Level, m: nat, copy: bool)
    requires EmptyFrameSize(symbol, version) && ColoursFor(ColoursOf(symbol), version)
    requires forall k: nat | k < |symbol| :: Reserved(symbol, k) == Reserved(NewFrame(version), k)
    requires SymbolWidth(CapacityOf(version).width)
    requires FormatSeen(ColoursOf(symbol), CapacityOf(version).width, copy) == Format(level, m)
    ensures MaskScore.Square(symbol, CapacityOf(version).width)
    ensures Scan(ColoursOf(symbol), version, copy)
         == ReadSymbol(Masked(m, symbol, CapacityOf(version).width), version, level)
  {
    hide CapacityOf, ReadSymbol, FormatSeen, NewFrame, Flips;
    WidthOf(version);
    var w := CapacityOf(version).width;
    var seen := Seen(ColoursOf(symbol), version);
    MaskTwice(m, symbol, w);
    MaskTwice(m, seen, w);
    forall k: nat | k < |symbol| && !Reserved(symbol, k)
      ensures Masked(m, symbol, w)[k] % 2 == Masked(m, seen, w)[k] % 2
    {
      assert symbol[k] % 2 == seen[k] % 2;
    }
    SameModulesSameData(Masked(m, seen, w), Masked(m, symbol, w), version, level);
  }
}
