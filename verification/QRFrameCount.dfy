/** How many modules the empty symbol of a version leaves free: as many as its codewords and remainder bits need. */
module QRFrameCount {
  import opened Bytes
  import opened QRSpec
  import opened Placement
  import opened QRFrame
  import opened MaskChoice

  // ----- Reserved modules are those under some layer

  predicate Covered(p: Picture, x: int, y: int) {
    exists i :: 0 <= i < |p| && Covers(p[i], x, y)
  }

  predicate Solid(l: Layer, x: int, y: int) {
    Covers(l, x, y) ==> Value(l, x, y) >= 0x80
  }

  lemma {:induction false} ReservedIffCovered(p: Picture, x: int, y: int)
    requires forall i | 0 <= i < |p| :: Solid(p[i], x, y)
    ensures At(p, x, y) >= 0x80 <==> Covered(p, x, y)
  {
    hide Covers, Value;
    if p != [] {
      var n := |p| - 1;
      forall i | 0 <= i < n ensures Solid(p[..n][i], x, y) {
        assert Solid(p[i], x, y);
      }
      ReservedIffCovered(p[..n], x, y);
      assert Solid(p[n], x, y);
      assert forall i | 0 <= i < n :: p[..n][i] == p[i];
    }
  }

  lemma CoveredAppend(p: Picture, q: Picture, x: int, y: int)
    ensures Covered(p + q, x, y) <==> Covered(p, x, y) || Covered(q, x, y)
  {
    hide Covers;
    if Covered(p, x, y) {
      var i :| 0 <= i < |p| && Covers(p[i], x, y);
      assert (p + q)[i] == p[i];
    }
    if Covered(q, x, y) {
      var i :| 0 <= i < |q| && Covers(q[i], x, y);
      assert (p + q)[|p| + i] == q[i];
    }
  }

  predicate InTiming(w: int, x: int, y: int) {
    (y == 6 && 9 <= x < w - 8) || (x == 6 && 9 <= y < w - 8)
  }

  /** The three corners, up to the single dark module. */
  predicate InCorner(w: int, x: int, y: int) {
    (x <= 8 && y <= 8) || (x >= w - 8 && y <= 8) || (x <= 8 && y >= w - 8)
  }

  lemma CornersCover(w: int, x: int, y: int)
    requires w >= 21 && 0 <= x < w && 0 <= y < w
    ensures Covered(Corners(w), x, y) <==> InTiming(w, x, y) || (InCorner(w, x, y) && !(x == 8 && y == w - 8))
  {
    var c := Corners(w);
    if InTiming(w, x, y) {
      assert Covers(c[11], x, y);
    } else if x <= 8 && y <= 8 {
      assert Covers(c[if x < 7 && y < 7 then 0 else if x == 7 && y < 7 then 3 else if y == 7 && x < 8 then 4
                      else if y == 8 then 7 else 9], x, y);
    } else if x >= w - 8 && y <= 8 {
      assert Covers(c[if x >= w - 7 && y < 7 then 1 else if y < 7 then 3 else if y == 7 then 5 else 8], x, y);
    } else if x <= 8 && y >= w - 8 && !(x == 8 && y == w - 8) {
      assert Covers(c[if x < 7 && y >= w - 7 then 2 else if x == 7 && y >= w - 7 then 3
                      else if x < 8 then 6 else 10], x, y);
    }
  }

  predicate InVersion(version: Version, w: int, x: int, y: int) {
    version >= 7 && ((x < 6 && w - 11 <= y < w - 8) || (y < 6 && w - 11 <= x < w - 8))
  }

  lemma RestCovers(version: Version, x: int, y: int)
    requires version >= 1
    requires 0 <= x < WidthFor(version) && 0 <= y < WidthFor(version)
    ensures var w := WidthFor(version);
      Covered(Rest(version), x, y) <==> InVersion(version, w, x, y) || (x == 8 && y == w - 8)
  {
    hide VersionPattern;
    var w, r := WidthFor(version), Rest(version);
    if InVersion(version, w, x, y) {
      assert Covers(r[if x < 6 && w - 11 <= y < w - 8 then 0 else 1], x, y);
    }
    if x == 8 && y == w - 8 {
      assert Covers(r[|r| - 1], x, y);
    }
  }

  predicate Near(c: Mark, x: int, y: int) {
    c.0 - 2 <= x <= c.0 + 2 && c.1 - 2 <= y <= c.1 + 2
  }

  predicate Marked(ms: seq<Mark>, x: int, y: int) {
    exists i :: 0 <= i < |ms| && Near(ms[i], x, y)
  }

  lemma MarksAt(ms: seq<Mark>, i: nat)
    requires i < |ms|
    ensures MarkLayers(ms)[i] == MarkLayer(ms[i])
  {
    if i < |ms| - 1 {
      MarksAt(ms[..|ms| - 1], i);
    }
  }

  lemma MarksCover(ms: seq<Mark>, x: int, y: int)
    ensures Covered(MarkLayers(ms), x, y) <==> Marked(ms, x, y)
  {
    forall i | 0 <= i < |ms| ensures Covers(MarkLayers(ms)[i], x, y) <==> Near(ms[i], x, y) {
      MarksAt(ms, i);
    }
  }

  predicate ReservedIn(version: Version, x: int, y: int) {
    var w := WidthFor(version);
    InTiming(w, x, y) || InCorner(w, x, y) || InVersion(version, w, x, y) || Marked(Marks(version), x, y)
  }

  /** What is reserved in the empty symbol: the corners, the timing and alignment patterns, and the version. */
  lemma DrawnReserved(version: Version, x: int, y: int)
    requires version >= 1 && 0 <= x < WidthFor(version) && 0 <= y < WidthFor(version)
    ensures At(Drawn(version), x, y) >= 0x80 <==> ReservedIn(version, x, y)
  {
    hide At, Covered, Covers, Marks, Corners, Rest, MarkLayers, InTiming, InCorner, InVersion, Marked;
    var w := WidthFor(version);
    var p, q, r := Corners(w), MarkLayers(Marks(version)), Rest(version);
    forall i | 0 <= i < |Drawn(version)| ensures Solid(Drawn(version)[i], x, y) {
      DrawnSolid(version, i, x, y);
    }
    ReservedIffCovered(Drawn(version), x, y);
    CoveredAppend(p + q, r, x, y);
    CoveredAppend(p, q, x, y);
    CornersCover(w, x, y);
    MarksCover(Marks(version), x, y);
    RestCovers(version, x, y);
    DarkModuleInCorner(w);
  }

  lemma DarkModuleInCorner(w: int)
    ensures InCorner(w, 8, w - 8)
  {
  }

  lemma DrawnSolid(version: Version, i: nat, x: int, y: int)
    requires version >= 1 && i < |Drawn(version)|
    ensures Solid(Drawn(version)[i], x, y)
  {
    hide Marks, VersionPattern;
    var w := WidthFor(version);
    var c, m := Corners(w), MarkLayers(Marks(version));
    if i < |c| {
      TilesSolid(0, 0, x, y);
      TilesSolid(w - 7, 0, x, y);
      TilesSolid(0, w - 7, x, y);
      assert Solid(c[i], x, y);
    } else if i < |c| + |m| {
      var k := Marks(version)[i - |c|];
      MarksAt(Marks(version), i - |c|);
      TilesSolid(k.0 - 2, k.1 - 2, x, y);
    }
  }

  lemma TilesSolid(x0: int, y0: int, x: int, y: int)
    ensures Solid(Tiled(x0, y0, FINDER), x, y) && Solid(Tiled(x0, y0, ALIGNMENT), x, y)
  {
  }

  // ----- Where the alignment patterns stand

  /** A centre in row or column 6 between the finder patterns, or right of and below those. */
  predicate MarkPlace(w: int, c: Mark) {
    || (c.0 == 6 && 18 <= c.1 <= w - 23)
    || (c.1 == 6 && 18 <= c.0 <= w - 23)
    || (18 <= c.0 <= w - 7 && 18 <= c.1 <= w - 7)
  }

  predicate Apart(c: Mark, e: Mark) {
    c.0 - e.0 >= 5 || e.0 - c.0 >= 5 || c.1 - e.1 >= 5 || e.1 - c.1 >= 5
  }

  ghost predicate ApartFrom(ms: seq<Mark>, c: Mark) {
    forall i | 0 <= i < |ms| :: Apart(ms[i], c)
  }

  ghost predicate Placed(ms: seq<Mark>, w: int) {
    forall i | 0 <= i < |ms| :: MarkPlace(w, ms[i])
  }

  /** The modules of a rectangle. */
  ghost function Block(x0: int, y0: int, a: nat, b: nat): set<(int, int)> {
    set x, y | x0 <= x < x0 + a && y0 <= y < y0 + b :: (x, y)
  }

  lemma {:induction false} BlockCard(x0: int, y0: int, a: nat, b: nat)
    ensures |Block(x0, y0, a, b)| == a * b
    decreases a
  {
    hide Block;
    if a == 0 {
      ColumnCard(x0, y0, b);
    } else {
      BlockCard(x0, y0, a - 1, b);
      ColumnCard(x0 + a - 1, y0, b);
      BlockSplits(x0, y0, a, b);
      Times(a, b);
    }
  }

  lemma Times(a: nat, b: nat)
    requires a > 0
    ensures (a - 1) * b + b == a * b
  {
  }

  lemma BlockSplits(x0: int, y0: int, a: nat, b: nat)
    requires a > 0
    ensures var l, r := Block(x0, y0, a - 1, b), Block(x0 + a - 1, y0, 1, b);
      Block(x0, y0, a, b) == l + r && l !! r
  {
  }

  lemma {:induction false} ColumnCard(x0: int, y0: int, b: nat)
    ensures |Block(x0, y0, 1, b)| == b && Block(x0, y0, 0, b) == {}
  {
    if b == 0 {
      assert Block(x0, y0, 1, b) == {};
    } else {
      ColumnCard(x0, y0, b - 1);
      assert Block(x0, y0, 1, b) == Block(x0, y0, 1, b - 1) + {(x0, y0 + b - 1)};
    }
  }

  /** The modules of an alignment pattern that are not part of the timing patterns. */
  ghost function MarkBlock(c: Mark): set<(int, int)> {
    set x, y | c.0 - 2 <= x <= c.0 + 2 && c.1 - 2 <= y <= c.1 + 2 && x != 6 && y != 6 :: (x, y)
  }

  lemma MarkBlockCard(w: int, c: Mark)
    requires MarkPlace(w, c)
    ensures |MarkBlock(c)| == if c.0 == 6 || c.1 == 6 then 20 else 25
  {
    hide Block, MarkBlock;
    MarkBlockIs(w, c);
    if c.0 == 6 {
      BlockCard(4, c.1 - 2, 2, 5);
      BlockCard(7, c.1 - 2, 2, 5);
    } else if c.1 == 6 {
      BlockCard(c.0 - 2, 4, 5, 2);
      BlockCard(c.0 - 2, 7, 5, 2);
    } else {
      BlockCard(c.0 - 2, c.1 - 2, 5, 5);
    }
  }

  lemma MarkBlockIs(w: int, c: Mark)
    requires MarkPlace(w, c)
    ensures c.0 == 6 ==>
      var l, r := Block(4, c.1 - 2, 2, 5), Block(7, c.1 - 2, 2, 5);
      MarkBlock(c) == l + r && l !! r
    ensures c.0 != 6 && c.1 == 6 ==>
      var l, r := Block(c.0 - 2, 4, 5, 2), Block(c.0 - 2, 7, 5, 2);
      MarkBlock(c) == l + r && l !! r
    ensures c.0 != 6 && c.1 != 6 ==> MarkBlock(c) == Block(c.0 - 2, c.1 - 2, 5, 5)
  {
  }

  ghost function MarkBlocks(ms: seq<Mark>): set<(int, int)> {
    if ms == [] then {} else MarkBlocks(ms[..|ms| - 1]) + MarkBlock(ms[|ms| - 1])
  }

  lemma {:induction false} InMarkBlocks(ms: seq<Mark>, x: int, y: int)
    ensures (x, y) in MarkBlocks(ms) <==> Marked(ms, x, y) && x != 6 && y != 6
  {
    if ms != [] {
      var n := |ms| - 1;
      InMarkBlocks(ms[..n], x, y);
      assert forall i | 0 <= i < n :: ms[..n][i] == ms[i];
      assert Near(ms[n], x, y) && x != 6 && y != 6 <==> (x, y) in MarkBlock(ms[n]);
    }
  }

  /** One more pattern, apart from those before it, adds all its modules. */
  lemma AddMark(ms: seq<Mark>, c: Mark, w: int)
    requires ApartFrom(ms, c) && MarkPlace(w, c)
    ensures |MarkBlocks(ms + [c])| == |MarkBlocks(ms)| + if c.0 == 6 || c.1 == 6 then 20 else 25
  {
    hide MarkBlocks, MarkBlock;
    MarkBlockCard(w, c);
    MarkBlocksNext(ms, c);
    forall p | p in MarkBlocks(ms) ensures p !in MarkBlock(c) {
      InMarkBlocks(ms, p.0, p.1);
      var i :| 0 <= i < |ms| && Near(ms[i], p.0, p.1);
      assert Apart(ms[i], c);
      ApartBlocks(ms[i], c, p);
    }
    assert MarkBlocks(ms) !! MarkBlock(c);
  }

  lemma MarkBlocksNext(ms: seq<Mark>, c: Mark)
    ensures MarkBlocks(ms + [c]) == MarkBlocks(ms) + MarkBlock(c)
  {
    assert (ms + [c])[..|ms|] == ms;
  }

  lemma ApartBlocks(c: Mark, e: Mark, p: (int, int))
    requires Apart(c, e) && Near(c, p.0, p.1)
    ensures p !in MarkBlock(e)
  {
  }

  // ----- How many modules the alignment patterns take

  /** On one side, in column or row 6, up to a place. */
  predicate OnSide(c: Mark, a: int, last: int) {
    (c.0 == 6 && a <= c.1 <= last) || (c.1 == 6 && a <= c.0 <= last)
  }

  predicate OnLine(c: Mark, a: int, y: int, last: int) {
    c.1 == y && a <= c.0 <= last
  }

  predicate OnGridUpTo(c: Mark, a: int, right: int, last: int) {
    a <= c.0 <= right && a <= c.1 <= last
  }

  lemma {:induction false} SidesAre(a: int, d: nat, k: nat)
    ensures forall i | 0 <= i < |Sides(a, d, k)| :: OnSide(Sides(a, d, k)[i], a, a + (k - 1) * d)
  {
    if k > 0 {
      SidesAre(a, d, k - 1);
      Steps(a, d, k);
    }
  }

  lemma {:induction false} LineAre(a: int, d: nat, y: int, k: nat)
    ensures forall i | 0 <= i < |Line(a, d, y, k)| :: OnLine(Line(a, d, y, k)[i], a, y, a + (k - 1) * d)
  {
    if k > 0 {
      LineAre(a, d, y, k - 1);
      Steps(a, d, k);
    }
  }

  lemma {:induction false} GridAre(a: int, d: nat, m: nat, k: nat)
    ensures forall i | 0 <= i < |Grid(a, d, m, k)| ::
              OnGridUpTo(Grid(a, d, m, k)[i], a, a + (m - 1) * d, a + (k - 1) * d)
  {
    if k > 0 {
      GridAre(a, d, m, k - 1);
      LineAre(a, d, a + (k - 1) * d, m);
      Steps(a, d, k);
    }
  }

  lemma Steps(a: int, d: nat, k: nat)
    requires k > 0
    ensures a <= a + (k - 1) * d
    ensures a + (k - 1) * d == a + (k - 1 - 1) * d + d
  {
    MulMonotone(0, k - 1, d);
  }

  /** The distances of the positions, as AlignmentGrid gives them. */
  predicate Spaced(w: int, a: int, d: nat, m: nat) {
    a >= 18 && m >= 1 && a + (m - 1) * d == w - 7 && (m > 1 ==> d >= 16)
  }

  lemma {:induction false} SidesTake(w: int, a: int, d: nat, m: nat, k: nat)
    requires Spaced(w, a, d, m) && k < m
    ensures |MarkBlocks(Sides(a, d, k))| == 40 * k
  {
    hide MarkBlocks;
    if k == 0 {
      NoMarks();
    } else {
      SidesTake(w, a, d, m, k - 1);
      SidesAre(a, d, k - 1);
      Steps(a, d, k);
      var ms, c := Sides(a, d, k - 1), a + (k - 1) * d;
      MulMonotone(k - 1, m - 2, d);
      assert (m - 2) * d == (m - 1) * d - d;
      forall i | 0 <= i < |ms| ensures Apart(ms[i], (6, c)) && Apart(ms[i], (c, 6)) {
        assert OnSide(ms[i], a, a + (k - 2) * d);
      }
      AddMark(ms, (6, c), w);
      AddMark(ms + [(6, c)], (c, 6), w);
      assert ms + [(6, c)] + [(c, 6)] == Sides(a, d, k);
    }
  }

  lemma NoMarks()
    ensures MarkBlocks([]) == {}
  {
  }

  /** A line of the grid below everything before it. */
  lemma {:induction false} LineTakes(w: int, a: int, d: nat, m: nat, y: int, ms: seq<Mark>, k: nat)
    requires Spaced(w, a, d, m) && k <= m && 18 <= y <= w - 7
    requires forall i | 0 <= i < |ms| :: ms[i].1 <= y - 5 || ms[i].0 == 6
    ensures |MarkBlocks(ms + Line(a, d, y, k))| == |MarkBlocks(ms)| + 25 * k
  {
    hide MarkBlocks;
    if k == 0 {
      assert ms + [] == ms;
    } else {
      LineTakes(w, a, d, m, y, ms, k - 1);
      LineAre(a, d, y, k - 1);
      Steps(a, d, k);
      var line, c := Line(a, d, y, k - 1), a + (k - 1) * d;
      MulMonotone(k - 1, m - 1, d);
      forall i | 0 <= i < |ms + line| ensures Apart((ms + line)[i], (c, y)) {
        if i >= |ms| {
          assert OnLine(line[i - |ms|], a, y, a + (k - 2) * d);
        }
      }
      AddMark(ms + line, (c, y), w);
      assert ms + line + [(c, y)] == ms + Line(a, d, y, k);
    }
  }

  /** What stands before a line of the grid is above it, or in column 6. */
  lemma AboveLine(w: int, a: int, d: nat, m: nat, k: nat)
    requires Spaced(w, a, d, m) && 0 < k <= m
    ensures var before, y := Sides(a, d, m - 1) + Grid(a, d, m, k - 1), a + (k - 1) * d;
      18 <= y <= w - 7 && forall i | 0 <= i < |before| :: before[i].1 <= y - 5 || before[i].0 == 6
  {
    hide Sides;
    SidesAre(a, d, m - 1);
    GridAre(a, d, m, k - 1);
    Steps(a, d, k);
    MulMonotone(k - 1, m - 1, d);
    var sides, grid, y := Sides(a, d, m - 1), Grid(a, d, m, k - 1), a + (k - 1) * d;
    var before: seq<Mark> := sides + grid;
    forall i | 0 <= i < |before| ensures before[i].1 <= y - 5 || before[i].0 == 6 {
      if i < |sides| {
        assert OnSide(sides[i], a, a + (m - 2) * d);
      } else {
        assert OnGridUpTo(grid[i - |sides|], a, a + (m - 1) * d, a + (k - 2) * d);
      }
    }
  }

  lemma {:induction false} GridTakes(w: int, a: int, d: nat, m: nat, k: nat)
    requires Spaced(w, a, d, m) && k <= m
    ensures |MarkBlocks(Sides(a, d, m - 1) + Grid(a, d, m, k))| == 40 * (m - 1) + 25 * (k * m)
  {
    hide MarkBlocks, Sides, Line;
    var sides := Sides(a, d, m - 1);
    if k == 0 {
      assert sides + [] == sides;
      SidesTake(w, a, d, m, m - 1);
    } else {
      GridTakes(w, a, d, m, k - 1);
      AboveLine(w, a, d, m, k);
      var y := a + (k - 1) * d;
      LineTakes(w, a, d, m, y, sides + Grid(a, d, m, k - 1), m);
      assert sides + Grid(a, d, m, k - 1) + Line(a, d, y, m) == sides + Grid(a, d, m, k);
      Times(k, m);
    }
  }

  // ----- The reserved modules, piece by piece

  lemma SpacedMarks(version: Version)
    requires version >= 2
    ensures var (a, b), m := AlignmentOf(version), Positions(version);
      && a >= 18 && m >= 1 && (m > 1 ==> b - a >= 16)
      && a + (m - 1) * (b - a) == WidthFor(version) - 7
  {
    hide AlignmentOf;
    AlignmentGrid(version);
  }

  lemma MarksPlaced(version: Version)
    requires version >= 1
    ensures Placed(Marks(version), WidthFor(version))
  {
    hide AlignmentOf, Positions;
    if version >= 2 {
      SpacedMarks(version);
      var (a, b) := AlignmentOf(version);
      var m, w := Positions(version), WidthFor(version);
      if m == 1 {
        OneGrid(a, b - a);
      } else {
        var d: nat := b - a;
        SidesAre(a, d, m - 1);
        GridAre(a, d, m, m);
        assert (m - 2) * d == (m - 1) * d - d;
        forall i | 0 <= i < |Marks(version)| ensures MarkPlace(w, Marks(version)[i]) {
          if i < |Sides(a, d, m - 1)| {
            assert OnSide(Sides(a, d, m - 1)[i], a, a + (m - 2) * d);
          } else {
            assert OnGridUpTo(Grid(a, d, m, m)[i - |Sides(a, d, m - 1)|], a, a + (m - 1) * d, a + (m - 1) * d);
          }
        }
      }
    }
  }

  /** How many modules the alignment patterns add to the timing patterns. */
  function MarkModules(version: Version): nat
    requires version >= 1
  {
    if version == 1 then 0
    else
      var m := Positions(version);
      40 * (m - 1) + 25 * (m * m)
  }

  lemma MarksTake(version: Version)
    requires version >= 1
    ensures |MarkBlocks(Marks(version))| == MarkModules(version)
  {
    hide AlignmentOf, Positions, MarkBlocks;
    if version == 1 {
      NoMarks();
    } else {
      SpacedMarks(version);
      var (a, b) := AlignmentOf(version);
      var m, w := Positions(version), WidthFor(version);
      if m == 1 {
        OneGrid(a, b - a);
        NoMarks();
        AddMark([], (a, a), w);
      } else {
        GridTakes(w, a, b - a, m, m);
      }
    }
  }

  lemma MarkedWhere(version: Version, x: int, y: int)
    requires version >= 1 && Marked(Marks(version), x, y)
    ensures var w := WidthFor(version);
      && 0 <= x < w && 0 <= y < w && !InCorner(w, x, y) && !InVersion(version, w, x, y)
      && (InTiming(w, x, y) <==> x == 6 || y == 6)
  {
    hide Marks;
    MarksPlaced(version);
    var i :| 0 <= i < |Marks(version)| && Near(Marks(version)[i], x, y);
    assert MarkPlace(WidthFor(version), Marks(version)[i]);
  }

  ghost function ReservedSet(version: Version): set<(int, int)> {
    var w := WidthFor(version);
    set x, y | 0 <= x < w && 0 <= y < w && ReservedIn(version, x, y) :: (x, y)
  }

  ghost function CornerSet(w: nat): set<(int, int)>
    requires w >= 21
  {
    Block(0, 0, 9, 9) + Block(w - 8, 0, 8, 9) + Block(0, w - 8, 9, 8)
  }

  ghost function TimingSet(w: nat): set<(int, int)>
    requires w >= 21
  {
    Block(9, 6, w - 17, 1) + Block(6, 9, 1, w - 17)
  }

  ghost function VersionSet(version: Version, w: nat): set<(int, int)> {
    if version >= 7 then Block(0, w - 11, 6, 3) + Block(w - 11, 0, 3, 6) else {}
  }

  lemma CornerCard(w: nat)
    requires w >= 21
    ensures |CornerSet(w)| == 225
    ensures forall x: int, y: int :: (x, y) in CornerSet(w) <==> 0 <= x < w && 0 <= y < w && InCorner(w, x, y)
  {
    BlockCard(0, 0, 9, 9);
    BlockCard(w - 8, 0, 8, 9);
    BlockCard(0, w - 8, 9, 8);
    assert Block(0, 0, 9, 9) !! Block(w - 8, 0, 8, 9);
    assert Block(0, 0, 9, 9) + Block(w - 8, 0, 8, 9) !! Block(0, w - 8, 9, 8);
  }

  lemma TimingCard(w: nat)
    requires w >= 21
    ensures |TimingSet(w)| == 2 * (w - 17)
    ensures forall x: int, y: int :: (x, y) in TimingSet(w) <==> InTiming(w, x, y)
  {
    BlockCard(9, 6, w - 17, 1);
    BlockCard(6, 9, 1, w - 17);
    assert Block(9, 6, w - 17, 1) !! Block(6, 9, 1, w - 17);
  }

  lemma VersionCard(version: Version, w: nat)
    requires w >= 21
    ensures |VersionSet(version, w)| == if version >= 7 then 36 else 0
    ensures forall x: int, y: int ::
              (x, y) in VersionSet(version, w) <==> 0 <= x < w && 0 <= y < w && InVersion(version, w, x, y)
  {
    BlockCard(0, w - 11, 6, 3);
    BlockCard(w - 11, 0, 3, 6);
    assert Block(0, w - 11, 6, 3) !! Block(w - 11, 0, 3, 6);
  }

  /** The pieces make up what is reserved, and do not overlap. */
  lemma OnePiece(version: Version, x: int, y: int)
    requires version >= 1
    ensures var w := WidthFor(version);
      var c, t := (x, y) in CornerSet(w), (x, y) in TimingSet(w);
      var v, m := (x, y) in VersionSet(version, w), (x, y) in MarkBlocks(Marks(version));
      && ((x, y) in ReservedSet(version) <==> c || t || v || m)
      && (c ==> !t && !v && !m) && (t ==> !v && !m) && (v ==> !m)
  {
    hide CornerSet, TimingSet, VersionSet, MarkBlocks, Marks, Marked, InCorner, InVersion, InTiming;
    var w := WidthFor(version);
    CornerCard(w);
    TimingCard(w);
    VersionCard(version, w);
    InMarkBlocks(Marks(version), x, y);
    PiecesApart(version, x, y);
    if Marked(Marks(version), x, y) {
      MarkedWhere(version, x, y);
    }
  }

  lemma ReservedCard(version: Version)
    requires version >= 1
    ensures var w := WidthFor(version);
      |ReservedSet(version)| == 225 + 2 * (w - 17) + (if version >= 7 then 36 else 0) + MarkModules(version)
  {
    hide CornerSet, TimingSet, VersionSet, MarkBlocks, Marks, MarkModules, ReservedSet;
    var w := WidthFor(version);
    CornerCard(w);
    TimingCard(w);
    VersionCard(version, w);
    MarksTake(version);
    var c, t, v, m := CornerSet(w), TimingSet(w), VersionSet(version, w), MarkBlocks(Marks(version));
    forall p: (int, int)
      ensures p in ReservedSet(version) <==> p in c || p in t || p in v || p in m
      ensures (p in c ==> p !in t && p !in v && p !in m) && (p in t ==> p !in v && p !in m) && (p in v ==> p !in m)
    {
      OnePiece(version, p.0, p.1);
      assert p == (p.0, p.1);
    }
    FourCards(ReservedSet(version), c, t, v, m);
  }

  lemma FourCards<T>(all: set<T>, a: set<T>, b: set<T>, c: set<T>, d: set<T>)
    requires forall p :: p in all <==> p in a || p in b || p in c || p in d
    requires a !! b && a !! c && a !! d && b !! c && b !! d && c !! d
    ensures |all| == |a| + |b| + |c| + |d|
  {
    assert all == a + b + c + d;
    assert a + b !! c && a + b + c !! d;
  }

  lemma PiecesApart(version: Version, x: int, y: int)
    requires version >= 1
    ensures var w := WidthFor(version);
      && (0 <= x < w && 0 <= y < w && InCorner(w, x, y) ==> !InTiming(w, x, y) && !InVersion(version, w, x, y))
      && (InTiming(w, x, y) ==> !InVersion(version, w, x, y) && 0 <= x < w && 0 <= y < w)
  {
  }

  // ----- What is left free

  /** The tables of widths, capacities and alignment patterns fit together. */
  predicate Fits(version: Version)
    requires version >= 1
  {
    var w, c := WidthFor(version), CapacityOf(version);
    && w == c.width
    && w * w == 225 + 2 * (w - 17) + (if version >= 7 then 36 else 0) + MarkModules(version) + 8 * c.words + c.remainder
  }

  predicate AllFit(lo: nat, hi: nat)
    requires 1 <= lo <= hi <= VERSION_MAX + 1
    decreases hi - lo
  {
    lo == hi || (Fits(lo) && AllFit(lo + 1, hi))
  }

  lemma Fit1() ensures AllFit(1, 5) {}
  lemma Fit5() ensures AllFit(5, 9) {}
  lemma Fit9() ensures AllFit(9, 13) {}
  lemma Fit13() ensures AllFit(13, 17) {}
  lemma Fit17() ensures AllFit(17, 21) {}
  lemma Fit21() ensures AllFit(21, 25) {}
  lemma Fit25() ensures AllFit(25, 29) {}
  lemma Fit29() ensures AllFit(29, 33) {}
  lemma Fit33() ensures AllFit(33, 37) {}
  lemma Fit37() ensures AllFit(37, 41) {}

  lemma {:induction false} FitsIn(lo: nat, hi: nat, version: Version)
    requires 1 <= lo <= version < hi <= VERSION_MAX + 1 && AllFit(lo, hi)
    ensures Fits(version)
    decreases hi - lo
  {
    hide Fits;
    if lo < version {
      FitsIn(lo + 1, hi, version);
    }
  }

  lemma CapacityFits(version: Version)
    requires version >= 1
    ensures Fits(version)
  {
    hide Fits, AllFit;
    Fit1(); Fit5(); Fit9(); Fit13(); Fit17(); Fit21(); Fit25(); Fit29(); Fit33(); Fit37();
    if version < 5 {
      FitsIn(1, 5, version);
    } else if version < 9 {
      FitsIn(5, 9, version);
    } else if version < 13 {
      FitsIn(9, 13, version);
    } else if version < 17 {
      FitsIn(13, 17, version);
    } else if version < 21 {
      FitsIn(17, 21, version);
    } else if version < 25 {
      FitsIn(21, 25, version);
    } else if version < 29 {
      FitsIn(25, 29, version);
    } else if version < 33 {
      FitsIn(29, 33, version);
    } else if version < 37 {
      FitsIn(33, 37, version);
    } else {
      FitsIn(37, 41, version);
    }
  }

  /** Column and row of an index. */
  function CellOf(i: nat, w: nat): (int, int)
    requires w >= 1
  {
    (i % w, i / w)
  }

  lemma CellIff(i: nat, w: nat, x: int, y: int)
    requires w >= 1 && i < w * w
    ensures CellOf(i, w) == (x, y) <==> 0 <= x < w && 0 <= y < w && i == y * w + x
  {
    RowInside(w, i);
    if 0 <= x < w && 0 <= y < w && i == y * w + x {
      DivUnique(i, w, y, x);
    }
  }

  /** The places of indices in the frame. */
  ghost function Places(trail: seq<nat>, w: nat): set<(int, int)>
    requires w >= 1
  {
    if trail == [] then {} else Places(trail[..|trail| - 1], w) + {CellOf(trail[|trail| - 1], w)}
  }

  lemma {:induction false} InPlaces(trail: seq<nat>, w: nat, p: (int, int))
    requires w >= 1
    ensures p in Places(trail, w) <==> exists i :: 0 <= i < |trail| && CellOf(trail[i], w) == p
  {
    hide CellOf;
    if trail != [] {
      var n := |trail| - 1;
      InPlaces(trail[..n], w, p);
      assert forall i | 0 <= i < n :: trail[..n][i] == trail[i];
    }
  }

  lemma {:induction false} PlacesCard(trail: seq<nat>, w: nat)
    requires w >= 1 && Distinct(trail) && forall i | 0 <= i < |trail| :: trail[i] < w * w
    ensures |Places(trail, w)| == |trail|
  {
    hide CellOf;
    if trail != [] {
      var n := |trail| - 1;
      PlacesCard(trail[..n], w);
      var p := CellOf(trail[n], w);
      InPlaces(trail[..n], w, p);
      if i :| 0 <= i < n && CellOf(trail[..n][i], w) == p {
        CellIff(trail[i], w, p.0, p.1);
        CellIff(trail[n], w, p.0, p.1);
        assert false;
      }
    }
  }

  lemma DrawnModule(version: Version, frame: seq<Byte>, x: nat, y: nat)
    requires version >= 1 && x < WidthFor(version) && y < WidthFor(version)
    requires Shows(frame, WidthFor(version), Drawn(version))
    ensures |frame| == WidthFor(version) * WidthFor(version)
    ensures ReservedAt(frame, WidthFor(version), x, y) <==> ReservedIn(version, x, y)
  {
    hide At, ReservedIn;
    assert ModuleIs(frame, WidthFor(version), x, y, At(Drawn(version), x, y));
    DrawnReserved(version, x, y);
  }

  /** The empty symbol reserves what the path does not pass. */
  lemma DrawnPatterns(version: Version, frame: seq<Byte>)
    requires version >= 1 && Shows(frame, WidthFor(version), Drawn(version))
    ensures SymbolWidth(WidthFor(version)) && |frame| == WidthFor(version) * WidthFor(version)
    ensures FunctionPatterns(frame, WidthFor(version))
  {
    hide Marks, Drawn, Marked;
    var w := WidthFor(version);
    forall x: nat, y: nat | x < w && y < w && !InRegion(w, x, y) ensures ReservedAt(frame, w, x, y) {
      DrawnModule(version, frame, x, y);
    }
  }

  lemma FreePlaces(version: Version, frame: seq<Byte>, trail: seq<nat>)
    requires version >= 1 && Shows(frame, WidthFor(version), Drawn(version))
    requires |frame| == WidthFor(version) * WidthFor(version)
    requires forall i: nat :: i in trail <==> i < |frame| && !Reserved(frame, i)
    ensures var w := WidthFor(version);
      Places(trail, w) == Block(0, 0, w, w) - ReservedSet(version)
  {
    hide Places, Shows, Reserved, ReservedIn, CellOf;
    var w := WidthFor(version);
    forall p: (int, int) ensures p in Places(trail, w) <==> p in Block(0, 0, w, w) - ReservedSet(version) {
      InPlaces(trail, w, p);
      assert p == (p.0, p.1);
      if 0 <= p.0 < w && 0 <= p.1 < w {
        CellOfIndex(version, frame, trail, p.0, p.1);
      } else if i :| 0 <= i < |trail| && CellOf(trail[i], w) == p {
        assert trail[i] in trail;
        CellIff(trail[i], w, p.0, p.1);
      }
    }
  }

  lemma CellOfIndex(version: Version, frame: seq<Byte>, trail: seq<nat>, x: nat, y: nat)
    requires version >= 1 && x < WidthFor(version) && y < WidthFor(version)
    requires Shows(frame, WidthFor(version), Drawn(version))
    requires |frame| == WidthFor(version) * WidthFor(version)
    requires forall i: nat :: i in trail <==> i < |frame| && !Reserved(frame, i)
    ensures var w := WidthFor(version);
      (exists i :: 0 <= i < |trail| && CellOf(trail[i], w) == (x, y)) <==> !ReservedIn(version, x, y)
  {
    hide Drawn, ReservedIn, Reserved, CellOf, Shows;
    var w := WidthFor(version);
    Inside(w, y, x);
    var k := y * w + x;
    DrawnModule(version, frame, x, y);
    assert ReservedAt(frame, w, x, y) <==> Reserved(frame, k);
    CellIff(k, w, x, y);
    if k in trail {
      var i :| 0 <= i < |trail| && trail[i] == k;
    }
    if i :| 0 <= i < |trail| && CellOf(trail[i], w) == (x, y) {
      assert trail[i] in trail;
      CellIff(trail[i], w, x, y);
    }
  }

  /**
   * The empty symbol of every version leaves exactly as many modules free as its codewords and remainder
   * bits need, and the path passes them all.
   */
  lemma FreeModules(version: Version, frame: seq<Byte>)
    requires version >= 1 && Shows(frame, WidthFor(version), Drawn(version))
    ensures var w, c := WidthFor(version), CapacityOf(version);
      && SymbolWidth(w) && w == c.width && FunctionPatterns(frame, w)
      && |Trail(frame, w, First())| == 8 * c.words + c.remainder
  {
    hide Trail, Places, Drawn, Shows, CapacityOf, MarkModules, ReservedSet, Block, Reserved;
    var w := WidthFor(version);
    DrawnPatterns(version, frame);
    var trail := Trail(frame, w, First());
    TrailIsEveryFreeModule(frame, w);
    forall i | 0 <= i < |trail| ensures trail[i] < w * w {
      assert trail[i] in trail;
    }
    PlacesCard(trail, w);
    FreePlaces(version, frame, trail);
    ReservedCard(version);
    CapacityFits(version);
    BlockCard(0, 0, w, w);
    ReservedInside(version, w);
    CardMinus(Block(0, 0, w, w), ReservedSet(version));
  }

  lemma ReservedInside(version: Version, w: nat)
    requires w == WidthFor(version)
    ensures ReservedSet(version) <= Block(0, 0, w, w)
  {
    hide ReservedIn;
  }

  lemma CardMinus<T>(a: set<T>, b: set<T>)
    requires b <= a
    ensures |a - b| == |a| - |b|
  {
    assert a == (a - b) + b && (a - b) !! b;
  }

  // ----- What the encoder relies on

  /** The corner where the path starts is free. */
  lemma DrawnStart(version: Version, frame: seq<Byte>)
    requires version >= 1 && Shows(frame, WidthFor(version), Drawn(version))
    ensures |frame| == WidthFor(version) * WidthFor(version) && SymbolWidth(WidthFor(version))
    ensures !Reserved(frame, IndexOf(WidthFor(version), First()))
  {
    hide Drawn, Shows, Marks;
    var w := WidthFor(version);
    DrawnModule(version, frame, w - 1, w - 1);
    MarksPlaced(version);
    forall i | 0 <= i < |Marks(version)| ensures !Near(Marks(version)[i], w - 1, w - 1) {
      assert MarkPlace(w, Marks(version)[i]);
    }
  }

  lemma {:induction false} AtBelow(p: Picture, q: Picture, x: int, y: int)
    ensures !Covered(q, x, y) ==> At(p + q, x, y) == At(p, x, y)
  {
    hide Covers, Value;
    if q == [] {
      assert p + q == p;
    } else if !Covered(q, x, y) {
      var n := |q| - 1;
      assert forall i | 0 <= i < n :: q[..n][i] == q[i];
      AtBelow(p, q[..n], x, y);
      AtTop(p + q[..n], q[n], x, y);
      assert p + q[..n] + [q[n]] == p + q;
    }
  }

  predicate InFormat(w: int, x: int, y: int) {
    || (y == 8 && (0 <= x < 9 || w - 8 <= x < w) && x != 6)
    || (x == 8 && (0 <= y < 9 || w - 7 <= y < w) && y != 6)
  }

  /** The areas of the format. */
  lemma FormatValue(version: Version, x: int, y: int)
    requires version >= 1 && InFormat(WidthFor(version), x, y)
    ensures At(Drawn(version), x, y) == 0x84
  {
    hide At, Covered, Marks, Corners, Rest, MarkLayers, Marked;
    var w := WidthFor(version);
    var p, q, r := Corners(w), MarkLayers(Marks(version)), Rest(version);
    RestCovers(version, x, y);
    AtBelow(p + q, r, x, y);
    MarksCover(Marks(version), x, y);
    if Marked(Marks(version), x, y) {
      MarkedWhere(version, x, y);
      assert false;
    }
    AtBelow(p, q, x, y);
    CornersFormat(w, x, y);
  }

  lemma CornersFormat(w: int, x: int, y: int)
    requires w >= 21 && InFormat(w, x, y)
    ensures At(Corners(w), x, y) == 0x84
  {
    hide At;
    var c := Corners(w);
    var k := if y == 8 && x < 9 then 7 else if y == 8 then 8 else if y < 9 then 9 else 10;
    assert Covers(c[k], x, y) && Value(c[k], x, y) == 0x84;
    AtBelow(c[..k + 1], c[k + 1..], x, y);
    assert c == c[..k + 1] + c[k + 1..] && c[..k + 1] == c[..k] + [c[k]];
    AtTop(c[..k], c[k], x, y);
  }

  /** Both copies of the version are there, the lowest bit nearest to the corner between the finder patterns. */
  lemma DrawnVersion(version: Version, frame: seq<Byte>, k: nat)
    requires version >= 7 && Shows(frame, WidthFor(version), Drawn(version)) && k < 18
    ensures var w, v := WidthFor(version), 0x88 + VersionPattern(version) / Pow2(k) % 2;
      ModuleIs(frame, w, k / 3, w - 11 + k % 3, v) && ModuleIs(frame, w, w - 11 + k % 3, k / 3, v)
  {
    hide At, Corners, MarkLayers, Marks, VersionPattern, Pow2;
    VersionValue(version, k / 3, WidthFor(version) - 11 + k % 3);
    VersionValue(version, WidthFor(version) - 11 + k % 3, k / 3);
  }

  lemma VersionValue(version: Version, x: int, y: int)
    requires version >= 7
    ensures var w := WidthFor(version);
      var below, beside := VersionBelow(w, VersionPattern(version), 18), VersionBeside(w, VersionPattern(version), 18);
      && (Covers(below, x, y) ==> At(Drawn(version), x, y) == Value(below, x, y))
      && (Covers(beside, x, y) ==> At(Drawn(version), x, y) == Value(beside, x, y))
  {
    hide At, Corners, MarkLayers, Marks, VersionPattern, Value;
    var w := WidthFor(version);
    var below, beside := VersionBelow(w, VersionPattern(version), 18), VersionBeside(w, VersionPattern(version), 18);
    var p, dot := Corners(w) + MarkLayers(Marks(version)), Rect(8, w - 8, 1, 1, 0x81);
    assert Drawn(version) == p + [below] + [beside] + [dot];
    AtTop(p + [below] + [beside], dot, x, y);
    AtTop(p + [below], beside, x, y);
    AtTop(p, below, x, y);
  }

  lemma DrawnFormat(version: Version, frame: seq<Byte>)
    requires version >= 1 && Shows(frame, WidthFor(version), Drawn(version))
    ensures FormatReserved(frame, WidthFor(version))
  {
    hide Drawn, At;
    var w := WidthFor(version);
    forall i: nat, c: bool | i < 15
      ensures frame[FormatPlace(w, i, c)] == 0x84
    {
      FormatValue(version, FormatX(w, i, c), FormatY(w, i, c));
      assert ModuleIs(frame, w, FormatX(w, i, c), FormatY(w, i, c), 0x84);
    }
  }

  /** The empty symbol as QRspec_newFrame hands it out. */
  function NewFrame(version: Version): (frame: Bytes)
    requires version >= 1
    ensures |frame| == WidthFor(version) * WidthFor(version)
  {
    var w := WidthFor(version);
    seq(w * w, i requires 0 <= i < w * w => At(Drawn(version), i % w, i / w))
  }

  lemma NewFrameShows(version: Version)
    requires version >= 1
    ensures Shows(NewFrame(version), WidthFor(version), Drawn(version))
  {
    hide At, Drawn;
    var w := WidthFor(version);
    forall x: nat, y: nat | x < w && y < w ensures ModuleIs(NewFrame(version), w, x, y, At(Drawn(version), x, y)) {
      Inside(w, y, x);
      DivUnique(y * w + x, w, y, x);
    }
  }

  /** A frame that shows the empty symbol is the empty symbol. */
  lemma ShownIsNew(version: Version, frame: seq<Byte>)
    requires version >= 1 && Shows(frame, WidthFor(version), Drawn(version))
    ensures frame == NewFrame(version)
  {
    hide At, Drawn;
    var w := WidthFor(version);
    NewFrameShows(version);
    forall i | 0 <= i < |frame| ensures frame[i] == NewFrame(version)[i] {
      RowInside(w, i);
      assert ModuleIs(frame, w, i % w, i / w, At(Drawn(version), i % w, i / w));
      assert ModuleIs(NewFrame(version), w, i % w, i / w, At(Drawn(version), i % w, i / w));
    }
  }
}
