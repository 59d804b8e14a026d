/** The empty symbol of each version: finder, timing and alignment patterns, and the reserved areas (qrspec.c). */
module QRFrame {
  import opened Bytes
  import opened QRSpec
  import opened Placement

  // ----- Pictures, as layers one above the other

  /**
   * A filled rectangle; the first rows of a small square picture and the start of the next row; the
   * columns beside the three finder patterns; the alternating modules of row and column 6; the bits of
   * the version below the left and beside the upper right finder pattern.
   */
  datatype Layer =
    | Rect(x0: int, y0: int, a: int, b: int, v: Byte)
    | Tile(x0: int, y0: int, rows: seq<Bytes>, ky: int, kx: int)
    | Separators(w: int, i: int, j: int, k: int)
    | Timing(n: int, m: int)
    | VersionBelow(w: int, info: nat, n: int)
    | VersionBeside(w: int, info: nat, n: int)

  type Picture = seq<Layer>

  predicate Covers(l: Layer, x: int, y: int) {
    match l
    case Rect(x0, y0, a, b, _) => x0 <= x < x0 + a && y0 <= y < y0 + b
    case Tile(x0, y0, rows, ky, kx) => x0 <= x < x0 + |rows| && (y0 <= y < y0 + ky || (y == y0 + ky && x < x0 + kx))
    case Separators(w, i, j, k) => (x == 7 && (0 <= y < i || w - 7 <= y < w - 7 + k)) || (x == w - 8 && 0 <= y < j)
    case Timing(n, m) => (y == 6 && 8 <= x < 8 + n) || (x == 6 && 8 <= y < 8 + m)
    case VersionBelow(w, _, n) => 0 <= x < 6 && w - 11 <= y < w - 8 && 3 * x + (y - (w - 11)) < n
    case VersionBeside(w, _, n) => 0 <= y < 6 && w - 11 <= x < w - 8 && 3 * y + (x - (w - 11)) < n
  }

  function Value(l: Layer, x: int, y: int): Byte {
    match l
    case Rect(_, _, _, _, v) => v
    case Tile(x0, y0, rows, _, _) => TileAt(rows, x - x0, y - y0)
    case Separators(_, _, _, _) => 0xC0
    case Timing(_, _) => 0x90 + ((if y == 6 then x else y) - 7) % 2
    case VersionBelow(w, info, _) => 0x88 + InfoBit(info, 3 * x + (y - (w - 11)))
    case VersionBeside(w, info, _) => 0x88 + InfoBit(info, 3 * y + (x - (w - 11)))
  }

  function TileAt(rows: seq<Bytes>, x: int, y: int): Byte {
    if 0 <= y < |rows| && 0 <= x < |rows[y]| then rows[y][x] else 0
  }

  function InfoBit(info: nat, i: int): (b: nat)
    ensures b < 2
  {
    if i < 0 then 0 else info / Pow2(i) % 2
  }

  /** The uppermost layer decides; the ground is 0. */
  function At(p: Picture, x: int, y: int): Byte {
    if p == [] then 0
    else
      var top := p[|p| - 1];
      if Covers(top, x, y) then Value(top, x, y) else At(p[..|p| - 1], x, y)
  }

  lemma AtTop(p: Picture, l: Layer, x: int, y: int)
    ensures At(p + [l], x, y) == if Covers(l, x, y) then Value(l, x, y) else At(p, x, y)
  {
    assert (p + [l])[..|p|] == p;
  }

  // ----- Frames that show a picture

  predicate ModuleIs(frame: seq<Byte>, w: nat, x: nat, y: nat, v: Byte)
    requires |frame| == w * w && x < w && y < w
  {
    Inside(w, y, x);
    frame[y * w + x] == v
  }

  ghost predicate Shows(frame: seq<Byte>, w: nat, p: Picture) {
    && |frame| == w * w
    && forall x: nat, y: nat | x < w && y < w :: ModuleIs(frame, w, x, y, At(p, x, y))
  }

  /** A layer differs from another at one module, which has value v there. */
  ghost predicate Grows(k: Layer, l: Layer, w: nat, x0: nat, y0: nat, v: Byte) {
    forall x: nat, y: nat | x < w && y < w ::
      if x == x0 && y == y0 then Covers(l, x, y) && Value(l, x, y) == v
      else (Covers(l, x, y) <==> Covers(k, x, y)) && (Covers(l, x, y) ==> Value(l, x, y) == Value(k, x, y))
  }

  /** Sets one module, by which the top layer grows. */
  method Dot(frame: array<Byte>, w: nat, x: nat, y: nat, v: Byte, ghost p: Picture, ghost k: Layer, ghost l: Layer)
    requires Shows(frame[..], w, p + [k]) && x < w && y < w && Grows(k, l, w, x, y, v)
    modifies frame
    ensures Shows(frame[..], w, p + [l])
  {
    hide At, Covers, Value;
    Inside(w, y, x);
    ghost var was := frame[..];
    frame[y * w + x] := v;
    forall a: nat, b: nat | a < w && b < w ensures ModuleIs(frame[..], w, a, b, At(p + [l], a, b)) {
      assert ModuleIs(was, w, a, b, At(p + [k], a, b));
      AtTop(p, k, a, b);
      AtTop(p, l, a, b);
      Inside(w, b, a);
      if b * w + a == y * w + x {
        DivUnique(b * w + a, w, b, a);
        DivUnique(b * w + a, w, y, x);
      }
    }
  }

  /** Layers that cover nothing, or the same. */
  lemma Start(frame: seq<Byte>, w: nat, p: Picture, l: Layer)
    requires Shows(frame, w, p) && forall x: nat, y: nat | x < w && y < w :: !Covers(l, x, y)
    ensures Shows(frame, w, p + [l])
  {
    hide Covers, Value, At;
    forall x: nat, y: nat | x < w && y < w ensures ModuleIs(frame, w, x, y, At(p + [l], x, y)) {
      assert ModuleIs(frame, w, x, y, At(p, x, y));
      AtTop(p, l, x, y);
    }
  }

  lemma SameLayer(frame: seq<Byte>, w: nat, p: Picture, k: Layer, l: Layer)
    requires Shows(frame, w, p + [k])
    requires forall x: nat, y: nat | x < w && y < w ::
               (Covers(l, x, y) <==> Covers(k, x, y)) && (Covers(l, x, y) ==> Value(l, x, y) == Value(k, x, y))
    ensures Shows(frame, w, p + [l])
  {
    hide Covers, Value, At;
    forall x: nat, y: nat | x < w && y < w ensures ModuleIs(frame, w, x, y, At(p + [l], x, y)) {
      assert ModuleIs(frame, w, x, y, At(p + [k], x, y));
      AtTop(p, k, x, y);
      AtTop(p, l, x, y);
    }
  }

  // ----- Painting

  method PutRow(frame: array<Byte>, w: nat, x0: nat, y0: nat, n: nat, v: Byte, ghost p: Picture)
    requires Shows(frame[..], w, p) && x0 + n <= w && y0 < w
    modifies frame
    ensures Shows(frame[..], w, p + [Rect(x0, y0, n, 1, v)])
  {
    Start(frame[..], w, p, Rect(x0, y0, 0, 1, v));
    for i := 0 to n
      invariant Shows(frame[..], w, p + [Rect(x0, y0, i, 1, v)])
    {
      Dot(frame, w, x0 + i, y0, v, p, Rect(x0, y0, i, 1, v), Rect(x0, y0, i + 1, 1, v));
    }
  }

  method PutColumn(frame: array<Byte>, w: nat, x0: nat, y0: nat, n: nat, v: Byte, ghost p: Picture)
    requires Shows(frame[..], w, p) && x0 < w && y0 + n <= w
    modifies frame
    ensures Shows(frame[..], w, p + [Rect(x0, y0, 1, n, v)])
  {
    Start(frame[..], w, p, Rect(x0, y0, 1, 0, v));
    for i := 0 to n
      invariant Shows(frame[..], w, p + [Rect(x0, y0, 1, i, v)])
    {
      Dot(frame, w, x0, y0 + i, v, p, Rect(x0, y0, 1, i, v), Rect(x0, y0, 1, i + 1, v));
    }
  }

  predicate Square(rows: seq<Bytes>, n: nat) {
    |rows| == n && forall y | 0 <= y < n :: |rows[y]| == n
  }

  function Tiled(x0: int, y0: int, rows: seq<Bytes>): Layer {
    Tile(x0, y0, rows, |rows|, 0)
  }

  /** putFinderPattern and QRspec_putAlignmentMarker: a square copied from a table. */
  method PutTile(frame: array<Byte>, w: nat, ox: nat, oy: nat, rows: seq<Bytes>, n: nat, ghost p: Picture)
    requires Shows(frame[..], w, p) && ox + n <= w && oy + n <= w && Square(rows, n)
    modifies frame
    ensures Shows(frame[..], w, p + [Tiled(ox, oy, rows)])
  {
    Start(frame[..], w, p, Tile(ox, oy, rows, 0, 0));
    for y := 0 to n
      invariant Shows(frame[..], w, p + [Tile(ox, oy, rows, y, 0)])
    {
      for x := 0 to n
        invariant Shows(frame[..], w, p + [Tile(ox, oy, rows, y, x)])
      {
        Dot(frame, w, ox + x, oy + y, rows[y][x], p, Tile(ox, oy, rows, y, x), Tile(ox, oy, rows, y, x + 1));
      }
      SameLayer(frame[..], w, p, Tile(ox, oy, rows, y, n), Tile(ox, oy, rows, y + 1, 0));
    }
  }

  method PutSeparators(frame: array<Byte>, w: nat, ghost p: Picture)
    requires Shows(frame[..], w, p) && w >= 21
    modifies frame
    ensures Shows(frame[..], w, p + [Separators(w, 7, 7, 7)])
  {
    Start(frame[..], w, p, Separators(w, 0, 0, 0));
    for y := 0 to 7
      invariant Shows(frame[..], w, p + [Separators(w, y, y, y)])
    {
      Dot(frame, w, 7, y, 0xC0, p, Separators(w, y, y, y), Separators(w, y + 1, y, y));
      Dot(frame, w, w - 8, y, 0xC0, p, Separators(w, y + 1, y, y), Separators(w, y + 1, y + 1, y));
      Dot(frame, w, 7, w - 7 + y, 0xC0, p, Separators(w, y + 1, y + 1, y), Separators(w, y + 1, y + 1, y + 1));
    }
  }

  method PutTiming(frame: array<Byte>, w: nat, ghost p: Picture)
    requires Shows(frame[..], w, p) && w >= 21
    modifies frame
    ensures Shows(frame[..], w, p + [Timing(w - 16, w - 16)])
  {
    Start(frame[..], w, p, Timing(0, 0));
    for x := 1 to w - 15
      invariant Shows(frame[..], w, p + [Timing(x - 1, x - 1)])
    {
      Dot(frame, w, 7 + x, 6, 0x90 + x % 2, p, Timing(x - 1, x - 1), Timing(x, x - 1));
      Dot(frame, w, 6, 7 + x, 0x90 + x % 2, p, Timing(x, x - 1), Timing(x, x));
    }
  }

  /** The version below the finder pattern, bit by bit, three modules to a column. */
  method PutVersionBelow(frame: array<Byte>, w: nat, info: nat, ghost p: Picture)
    requires Shows(frame[..], w, p) && w >= 21
    modifies frame
    ensures Shows(frame[..], w, p + [VersionBelow(w, info, 18)])
  {
    hide Pow2, Shows, Grows;
    NothingBelow(w, info);
    Start(frame[..], w, p, VersionBelow(w, info, 0));
    BitsGone(info, 0);
    var v := info;
    for x := 0 to 6
      invariant v == info / Pow2(3 * x) && Shows(frame[..], w, p + [VersionBelow(w, info, 3 * x)])
    {
      for y := 0 to 3
        invariant v == info / Pow2(3 * x + y) && Shows(frame[..], w, p + [VersionBelow(w, info, 3 * x + y)])
      {
        ghost var k := 3 * x + y;
        BitsGone(info, k);
        VersionGrows(w, info, x, y, v % 2);
        Dot(frame, w, x, w - 11 + y, 0x88 + v % 2, p, VersionBelow(w, info, k), VersionBelow(w, info, k + 1));
        v := v / 2;
      }
    }
  }

  /** The version beside the finder pattern, three modules to a row. */
  method PutVersionBeside(frame: array<Byte>, w: nat, info: nat, ghost p: Picture)
    requires Shows(frame[..], w, p) && w >= 21
    modifies frame
    ensures Shows(frame[..], w, p + [VersionBeside(w, info, 18)])
  {
    hide Pow2, Shows, Grows;
    NothingBelow(w, info);
    Start(frame[..], w, p, VersionBeside(w, info, 0));
    BitsGone(info, 0);
    var v := info;
    for y := 0 to 6
      invariant v == info / Pow2(3 * y) && Shows(frame[..], w, p + [VersionBeside(w, info, 3 * y)])
    {
      for x := 0 to 3
        invariant v == info / Pow2(3 * y + x) && Shows(frame[..], w, p + [VersionBeside(w, info, 3 * y + x)])
      {
        ghost var k := 3 * y + x;
        BitsGone(info, k);
        VersionGrows(w, info, y, x, v % 2);
        Dot(frame, w, w - 11 + x, y, 0x88 + v % 2, p, VersionBeside(w, info, k), VersionBeside(w, info, k + 1));
        v := v / 2;
      }
    }
  }

  lemma NothingBelow(w: int, info: nat)
    ensures forall x: int, y: int :: !Covers(VersionBelow(w, info, 0), x, y) && !Covers(VersionBeside(w, info, 0), x, y)
  {
  }

  /** Bit 3 * i + j of the version, in its two places. */
  lemma VersionGrows(w: nat, info: nat, i: nat, j: nat, bit: nat)
    requires w >= 21 && i < 6 && j < 3 && bit == InfoBit(info, 3 * i + j)
    ensures var k := 3 * i + j;
      && Grows(VersionBelow(w, info, k), VersionBelow(w, info, k + 1), w, i, w - 11 + j, 0x88 + bit)
      && Grows(VersionBeside(w, info, k), VersionBeside(w, info, k + 1), w, w - 11 + j, i, 0x88 + bit)
  {
    hide InfoBit;
  }

  lemma BitsGone(info: nat, k: nat)
    ensures InfoBit(info, k) == info / Pow2(k) % 2
    ensures info / Pow2(0) == info
    ensures info / Pow2(k + 1) == info / Pow2(k) / 2
  {
    HalfTwice(info, Pow2(k));
  }

  // ----- Alignment patterns

  /** The second and third position of the alignment patterns; the others keep their distance. */
  function AlignmentOf(version: Version): (int, int) {
    match version
    case 0 => (0, 0) case 1 => (0, 0) case 2 => (18, 0) case 3 => (22, 0) case 4 => (26, 0) case 5 => (30, 0)
    case 6 => (34, 0) case 7 => (22, 38) case 8 => (24, 42) case 9 => (26, 46) case 10 => (28, 50)
    case 11 => (30, 54) case 12 => (32, 58) case 13 => (34, 62) case 14 => (26, 46) case 15 => (26, 48)
    case 16 => (26, 50) case 17 => (30, 54) case 18 => (30, 56) case 19 => (30, 58) case 20 => (34, 62)
    case 21 => (28, 50) case 22 => (26, 50) case 23 => (30, 54) case 24 => (28, 54) case 25 => (32, 58)
    case 26 => (30, 58) case 27 => (34, 62) case 28 => (26, 50) case 29 => (30, 54) case 30 => (26, 52)
    case 31 => (30, 56) case 32 => (34, 60) case 33 => (30, 58) case 34 => (34, 62) case 35 => (30, 54)
    case 36 => (24, 50) case 37 => (28, 54) case 38 => (32, 58) case 39 => (26, 54) case _ => (30, 58)
  }

  function WidthFor(version: Version): nat {
    4 * version + 17
  }

  /** How many positions there are behind the first, 6. */
  function Positions(version: Version): nat
    requires version >= 2
  {
    var (a, b) := AlignmentOf(version);
    if b < a then 1
    else
      AlignmentGrid(version);
      (WidthFor(version) - a) / (b - a) + 1
  }

  /** The positions lie on a grid that ends seven modules before the edge, and far apart. */
  lemma AlignmentGrid(version: Version)
    requires version >= 2
    ensures var (a, b) := AlignmentOf(version);
      var w, d := WidthFor(version), b - a;
      && 18 <= a
      && (version < 7 ==> b == 0 && a == w - 7)
      && (version >= 7 ==> d >= 16 && 1 <= (w - a) / d <= 6 && a + (w - a) / d * d == w - 7)
  {
  }

  type Mark = (int, int)

  /** The centres in row and column 6, then those of the grid, line by line. */
  function Sides(a: int, d: int, k: nat): seq<Mark> {
    if k == 0 then [] else Sides(a, d, k - 1) + [(6, a + (k - 1) * d), (a + (k - 1) * d, 6)]
  }

  function Line(a: int, d: int, y: int, k: nat): seq<Mark> {
    if k == 0 then [] else Line(a, d, y, k - 1) + [(a + (k - 1) * d, y)]
  }

  function Grid(a: int, d: int, m: nat, k: nat): seq<Mark> {
    if k == 0 then [] else Grid(a, d, m, k - 1) + Line(a, d, a + (k - 1) * d, m)
  }

  function Marks(version: Version): seq<Mark> {
    if version < 2 then []
    else
      var (a, b), m := AlignmentOf(version), Positions(version);
      Sides(a, b - a, m - 1) + Grid(a, b - a, m, m)
  }

  const ALIGNMENT: seq<Bytes> := [
    [0xA1, 0xA1, 0xA1, 0xA1, 0xA1],
    [0xA1, 0xA0, 0xA0, 0xA0, 0xA1],
    [0xA1, 0xA0, 0xA1, 0xA0, 0xA1],
    [0xA1, 0xA0, 0xA0, 0xA0, 0xA1],
    [0xA1, 0xA1, 0xA1, 0xA1, 0xA1]]

  const FINDER: seq<Bytes> := [
    [0xC1, 0xC1, 0xC1, 0xC1, 0xC1, 0xC1, 0xC1],
    [0xC1, 0xC0, 0xC0, 0xC0, 0xC0, 0xC0, 0xC1],
    [0xC1, 0xC0, 0xC1, 0xC1, 0xC1, 0xC0, 0xC1],
    [0xC1, 0xC0, 0xC1, 0xC1, 0xC1, 0xC0, 0xC1],
    [0xC1, 0xC0, 0xC1, 0xC1, 0xC1, 0xC0, 0xC1],
    [0xC1, 0xC0, 0xC0, 0xC0, 0xC0, 0xC0, 0xC1],
    [0xC1, 0xC1, 0xC1, 0xC1, 0xC1, 0xC1, 0xC1]]

  /** The square ring around the centre on which a module lies. */
  function Ring(dx: int, dy: int): int {
    var a, b := if dx < 0 then -dx else dx, if dy < 0 then -dy else dy;
    if a < b then b else a
  }

  /** A finder pattern is light on its second ring, an alignment pattern on its first, and dark elsewhere; all their
      modules are reserved. */
  lemma PatternsAreRings(x: nat, y: nat)
    requires x < 7 && y < 7
    ensures FINDER[y][x] >= 0x80 && (FINDER[y][x] % 2 == 0 <==> Ring(x - 3, y - 3) == 2)
    ensures x < 5 && y < 5 ==> ALIGNMENT[y][x] >= 0x80 && (ALIGNMENT[y][x] % 2 == 0 <==> Ring(x - 2, y - 2) == 1)
  {
  }

  function MarkLayer(c: Mark): Layer {
    Tiled(c.0 - 2, c.1 - 2, ALIGNMENT)
  }

  function MarkLayers(ms: seq<Mark>): (p: Picture)
    ensures |p| == |ms|
  {
    if ms == [] then [] else MarkLayers(ms[..|ms| - 1]) + [MarkLayer(ms[|ms| - 1])]
  }

  lemma OneMark(ms: seq<Mark>, c: Mark)
    ensures MarkLayers(ms + [c]) == MarkLayers(ms) + [MarkLayer(c)]
  {
    assert (ms + [c])[..|ms|] == ms;
  }

  /** QRspec_putAlignmentMarker, at the centre. */
  method PutMark(frame: array<Byte>, w: nat, cx: nat, cy: nat, ghost p: Picture, ghost ms: seq<Mark>)
    requires Shows(frame[..], w, p + MarkLayers(ms)) && 2 <= cx < w - 2 && 2 <= cy < w - 2
    modifies frame
    ensures Shows(frame[..], w, p + MarkLayers(ms + [(cx, cy)]))
  {
    PutTile(frame, w, cx - 2, cy - 2, ALIGNMENT, 5, p + MarkLayers(ms));
    OneMark(ms, (cx, cy));
    assert p + (MarkLayers(ms) + [MarkLayer((cx, cy))]) == p + MarkLayers(ms) + [MarkLayer((cx, cy))];
  }

  /** The places of a grid lie inside the symbol. */
  lemma OnGrid(a: nat, d: nat, m: nat, w: nat, k: nat)
    requires m >= 1 && k < m && a + (m - 1) * d == w - 7
    ensures a <= a + k * d <= w - 7
    ensures a + (k + 1) * d == a + k * d + d
  {
    MulMonotone(k, m - 1, d);
  }

  /** QRspec_putAlignmentPattern. */
  method PutAlignment(version: Version, frame: array<Byte>, w: nat, ghost p: Picture)
    requires Shows(frame[..], w, p) && w == WidthFor(version) && version >= 1
    modifies frame
    ensures Shows(frame[..], w, p + MarkLayers(Marks(version)))
  {
    hide AlignmentOf, Sides, Grid, Line, Shows, MarkLayers;
    NoLayers(p);
    if version < 2 {
      return;
    }
    AlignmentGrid(version);
    var (a, b) := AlignmentOf(version);
    var d := b - a;
    var n := 2;
    if d >= 0 {
      n := (w - a) / d + 2;
    }
    OneGrid(a, d);
    if n * n - 3 == 1 {
      NotTwo(n);
      PutMark(frame, w, a, a, p, []);
      return;
    }
    NotTwo(n);
    PutSides(frame, w, a, d, n - 1, p);
    PutGrid(frame, w, a, d, n - 1, p, Sides(a, d, n - 2));
  }

  lemma NoLayers(p: Picture)
    ensures p + MarkLayers([]) == p
  {
    assert p + [] == p;
  }

  lemma NotTwo(n: nat)
    requires n >= 2
    ensures n * n - 3 == 1 <==> n == 2
  {
    if n > 2 {
      MulMonotone(3, n, n);
    }
  }

  lemma OneGrid(a: int, d: int)
    ensures Sides(a, d, 0) + Grid(a, d, 1, 1) == [] + [(a, a)]
  {
    assert Line(a, d, a, 1) == Line(a, d, a, 0) + [(a, a)];
    assert Grid(a, d, 1, 1) == Grid(a, d, 1, 0) + Line(a, d, a, 1);
  }

  method PutSides(frame: array<Byte>, w: nat, a: nat, d: nat, m: nat, ghost p: Picture)
    requires Shows(frame[..], w, p) && w >= 21 && m >= 1 && a >= 2 && a + (m - 1) * d == w - 7
    modifies frame
    ensures Shows(frame[..], w, p + MarkLayers(Sides(a, d, m - 1)))
  {
    assert p + [] == p;
    var cx := a;
    for x := 1 to m
      invariant cx == a + (x - 1) * d
      invariant Shows(frame[..], w, p + MarkLayers(Sides(a, d, x - 1)))
    {
      OnGrid(a, d, m, w, x - 1);
      ghost var ms := Sides(a, d, x - 1);
      PutMark(frame, w, 6, cx, p, ms);
      PutMark(frame, w, cx, 6, p, ms + [(6, cx)]);
      assert ms + [(6, cx)] + [(cx, 6)] == Sides(a, d, x);
      cx := cx + d;
    }
  }

  /** The inner loop: one line of the grid. */
  method PutLine(frame: array<Byte>, w: nat, a: nat, d: nat, m: nat, cy: nat, ghost p: Picture, ghost ms: seq<Mark>)
    requires Shows(frame[..], w, p + MarkLayers(ms)) && w >= 21 && m >= 1 && a >= 2 && a + (m - 1) * d == w - 7
    requires 2 <= cy <= w - 7
    modifies frame
    ensures Shows(frame[..], w, p + MarkLayers(ms + Line(a, d, cy, m)))
  {
    hide Shows, MarkLayers;
    assert ms + [] == ms;
    var cx := a;
    for x := 0 to m
      invariant cx == a + x * d
      invariant Shows(frame[..], w, p + MarkLayers(ms + Line(a, d, cy, x)))
    {
      OnGrid(a, d, m, w, x);
      PutMark(frame, w, cx, cy, p, ms + Line(a, d, cy, x));
      assert ms + Line(a, d, cy, x) + [(cx, cy)] == ms + Line(a, d, cy, x + 1);
      cx := cx + d;
    }
  }

  method PutGrid(frame: array<Byte>, w: nat, a: nat, d: nat, m: nat, ghost p: Picture, ghost ms: seq<Mark>)
    requires Shows(frame[..], w, p + MarkLayers(ms)) && w >= 21 && m >= 1 && a >= 2 && a + (m - 1) * d == w - 7
    modifies frame
    ensures Shows(frame[..], w, p + MarkLayers(ms + Grid(a, d, m, m)))
  {
    hide Shows, MarkLayers, Line;
    assert ms + [] == ms;
    var cy := a;
    for y := 0 to m
      invariant cy == a + y * d
      invariant Shows(frame[..], w, p + MarkLayers(ms + Grid(a, d, m, y)))
    {
      OnGrid(a, d, m, w, y);
      PutLine(frame, w, a, d, m, cy, p, ms + Grid(a, d, m, y));
      assert ms + Grid(a, d, m, y) + Line(a, d, cy, m) == ms + Grid(a, d, m, y + 1);
      cy := cy + d;
    }
  }

  // ----- The frame

  function VersionPattern(version: Version): nat
    requires version >= 7
  {
    match version
    case 7 => 0x07C94 case 8 => 0x085BC case 9 => 0x09A99 case 10 => 0x0A4D3 case 11 => 0x0BBF6
    case 12 => 0x0C762 case 13 => 0x0D847 case 14 => 0x0E60D case 15 => 0x0F928 case 16 => 0x10B78
    case 17 => 0x1145D case 18 => 0x12A17 case 19 => 0x13532 case 20 => 0x149A6 case 21 => 0x15683
    case 22 => 0x168C9 case 23 => 0x177EC case 24 => 0x18EC4 case 25 => 0x191E1 case 26 => 0x1AFAB
    case 27 => 0x1B08E case 28 => 0x1CC1A case 29 => 0x1D33F case 30 => 0x1ED75 case 31 => 0x1F250
    case 32 => 0x209D5 case 33 => 0x216F0 case 34 => 0x228BA case 35 => 0x2379F case 36 => 0x24B0B
    case 37 => 0x2542E case 38 => 0x26A64 case 39 => 0x27541 case _ => 0x28C69
  }

  /** Finder patterns with their separators, the areas of the format, and the timing patterns. */
  function Corners(w: int): Picture {
    [Tiled(0, 0, FINDER), Tiled(w - 7, 0, FINDER), Tiled(0, w - 7, FINDER), Separators(w, 7, 7, 7),
     Rect(0, 7, 8, 1, 0xC0), Rect(w - 8, 7, 8, 1, 0xC0), Rect(0, w - 8, 8, 1, 0xC0),
     Rect(0, 8, 9, 1, 0x84), Rect(w - 8, 8, 8, 1, 0x84), Rect(8, 0, 1, 8, 0x84), Rect(8, w - 7, 1, 7, 0x84),
     Timing(w - 16, w - 16)]
  }

  /** The version, and a single dark module. */
  function Rest(version: Version): Picture {
    var w := WidthFor(version);
    (if version >= 7 then
       [VersionBelow(w, VersionPattern(version), 18), VersionBeside(w, VersionPattern(version), 18)]
     else [])
    + [Rect(8, w - 8, 1, 1, 0x81)]
  }

  function Drawn(version: Version): Picture {
    Corners(WidthFor(version)) + MarkLayers(Marks(version)) + Rest(version)
  }

  /** QRspec_createFrame. */
  method CreateFrame(version: Version) returns (frame: array<Byte>)
    requires version >= 1
    ensures fresh(frame) && Shows(frame[..], WidthFor(version), Drawn(version))
  {
    hide Marks, At, Shows, VersionPattern;
    var w := WidthFor(version);
    frame := new Byte[w * w](_ => 0);
    BlankShows(frame[..], w);
    PutCorners(frame, w);
    PutAlignment(version, frame, w, Corners(w));
    ghost var p := Corners(w) + MarkLayers(Marks(version));
    if version >= 7 {
      var info := VersionPattern(version);
      PutVersionBelow(frame, w, info, p);
      p := p + [VersionBelow(w, info, 18)];
      PutVersionBeside(frame, w, info, p);
      p := p + [VersionBeside(w, info, 18)];
    }
    PutRow(frame, w, 8, w - 8, 1, 0x81, p);
    assert p + [Rect(8, w - 8, 1, 1, 0x81)] == Drawn(version);
  }

  lemma BlankShows(frame: seq<Byte>, w: nat)
    requires |frame| == w * w && forall i | 0 <= i < |frame| :: frame[i] == 0
    ensures Shows(frame, w, [])
  {
    forall x: nat, y: nat | x < w && y < w ensures ModuleIs(frame, w, x, y, At([], x, y)) {
      Inside(w, y, x);
    }
  }

  method PutCorners(frame: array<Byte>, w: nat)
    requires Shows(frame[..], w, []) && w >= 21
    modifies frame
    ensures Shows(frame[..], w, Corners(w))
  {
    hide Shows, At;
    var c := Corners(w);
    assert c[..0] == [];
    PutTile(frame, w, 0, 0, FINDER, 7, c[..0]);
    assert c[..0] + [c[0]] == c[..1];
    PutTile(frame, w, w - 7, 0, FINDER, 7, c[..1]);
    assert c[..1] + [c[1]] == c[..2];
    PutTile(frame, w, 0, w - 7, FINDER, 7, c[..2]);
    assert c[..2] + [c[2]] == c[..3];
    PutSeparators(frame, w, c[..3]);
    assert c[..3] + [c[3]] == c[..4];
    PutRow(frame, w, 0, 7, 8, 0xC0, c[..4]);
    assert c[..4] + [c[4]] == c[..5];
    PutRow(frame, w, w - 8, 7, 8, 0xC0, c[..5]);
    assert c[..5] + [c[5]] == c[..6];
    PutRow(frame, w, 0, w - 8, 8, 0xC0, c[..6]);
    assert c[..6] + [c[6]] == c[..7];
    PutRow(frame, w, 0, 8, 9, 0x84, c[..7]);
    assert c[..7] + [c[7]] == c[..8];
    PutRow(frame, w, w - 8, 8, 8, 0x84, c[..8]);
    assert c[..8] + [c[8]] == c[..9];
    PutColumn(frame, w, 8, 0, 8, 0x84, c[..9]);
    assert c[..9] + [c[9]] == c[..10];
    PutColumn(frame, w, 8, w - 7, 7, 0x84, c[..10]);
    assert c[..10] + [c[10]] == c[..11];
    PutTiming(frame, w, c[..11]);
    assert c[..11] + [c[11]] == c;
  }
}
