/** The loops of mask.c that score a symbol, proved against the pixel rules of module Mask. */
module MaskScore {
  import opened Bytes
  import opened Mask

  // ----- The pixels of a frame

  predicate Square(frame: seq<Byte>, width: nat) {
    width >= 1 && |frame| == width * width
  }

  predicate PixelDark(frame: seq<Byte>, width: nat, x: nat, y: nat)
    requires Square(frame, width) && x < width && y < width
  {
    Inside(width, y, x);
    frame[y * width + x] % 2 == 1
  }

  function Row(frame: seq<Byte>, width: nat, y: nat): (line: Line)
    requires Square(frame, width) && y < width
    ensures |line| == width
  {
    seq(width, x requires 0 <= x < width => PixelDark(frame, width, x, y))
  }

  function Column(frame: seq<Byte>, width: nat, x: nat): (line: Line)
    requires Square(frame, width) && x < width
    ensures |line| == width
  {
    seq(width, y requires 0 <= y < width => PixelDark(frame, width, x, y))
  }

  // ----- The score of a symbol by the rules: rows, columns, and blocks of two by two

  ghost function RowScores(frame: seq<Byte>, width: nat, n: nat): int
    requires Square(frame, width) && n <= width
  {
    if n == 0 then 0 else RowScores(frame, width, n - 1) + LineScore(Row(frame, width, n - 1))
  }

  ghost function ColumnScores(frame: seq<Byte>, width: nat, n: nat): int
    requires Square(frame, width) && n <= width
  {
    if n == 0 then 0 else ColumnScores(frame, width, n - 1) + LineScore(Column(frame, width, n - 1))
  }

  /** The block whose lower right corner is (x, y) has one colour. */
  predicate Uniform(frame: seq<Byte>, width: nat, x: nat, y: nat)
    requires Square(frame, width) && 1 <= x < width && 1 <= y < width
  {
    && PixelDark(frame, width, x - 1, y) == PixelDark(frame, width, x, y)
    && PixelDark(frame, width, x, y - 1) == PixelDark(frame, width, x, y)
    && PixelDark(frame, width, x - 1, y - 1) == PixelDark(frame, width, x, y)
  }

  function UniformBlocks(frame: seq<Byte>, width: nat): set<(nat, nat)>
    requires Square(frame, width)
  {
    set x: nat, y: nat | 1 <= x < width && 1 <= y < width && Uniform(frame, width, x, y) :: (x, y)
  }

  /** The blocks that come before (x, y) in reading order. */
  function BlocksBefore(frame: seq<Byte>, width: nat, x: nat, y: nat): set<(nat, nat)>
    requires Square(frame, width)
  {
    set b | b in UniformBlocks(frame, width) && (b.1 < y || (b.1 == y && b.0 < x))
  }

  lemma BlocksNext(frame: seq<Byte>, width: nat, x: nat, y: nat)
    requires Square(frame, width) && 1 <= x < width && 1 <= y < width
    ensures |BlocksBefore(frame, width, x + 1, y)|
         == |BlocksBefore(frame, width, x, y)| + (if Uniform(frame, width, x, y) then 1 else 0)
  {
    var blocks := UniformBlocks(frame, width);
    var before := BlocksBefore(frame, width, x, y);
    assert BlocksBefore(frame, width, x + 1, y)
        == before + (if Uniform(frame, width, x, y) then {(x, y)} else {});
  }

  lemma BlocksEnds(frame: seq<Byte>, width: nat)
    requires Square(frame, width)
    ensures forall y: nat | y < width :: BlocksBefore(frame, width, width, y) == BlocksBefore(frame, width, 1, y + 1)
    ensures BlocksBefore(frame, width, 1, 1) == {}
    ensures BlocksBefore(frame, width, 1, width) == UniformBlocks(frame, width)
  {
  }

  ghost function SymbolScore(frame: seq<Byte>, width: nat): int
    requires Square(frame, width)
  {
    N2 * |UniformBlocks(frame, width)| + RowScores(frame, width, width) + ColumnScores(frame, width, width)
  }

  // ----- Run lengths of one line

  /** One more pixel: the last run grows, or a new run starts. */
  lemma DescribesNext(runs: seq<int>, line: Line, i: nat)
    requires 1 <= i < |line|
    requires Describes(runs, line[..i])
    ensures line[i] == line[i - 1] ==> Describes(runs[|runs| - 1 := runs[|runs| - 1] + 1], line[..i + 1])
    ensures line[i] != line[i - 1] ==> Describes(runs + [1], line[..i + 1])
  {
    hide Describes, Start;
    var n := |runs|;
    RunLast(runs, line[..i]);
    RunSpan(runs, line[..i], n - 1);
    RunColour(runs, line[..i], n - 1, i - 1);
    if line[i] == line[i - 1] {
      var more := runs[n - 1 := runs[n - 1] + 1];
      DescribesMore(runs, more, line, i, n);
    } else {
      var more := runs + [1];
      DescribesMore(runs, more, line, i, n + 1);
    }
  }

  lemma RunLast(runs: seq<int>, line: Line)
    requires Describes(runs, line)
    ensures RunArray(runs)
    ensures |runs| >= 1
    ensures Start(runs, |runs| - 1) < Start(runs, |runs|) == |line| && runs[|runs| - 1] >= 1
    ensures |runs| <= |line| + 1
  {
    StartGrows(runs, |runs|);
  }

  lemma {:induction false} StartGrows(runs: seq<int>, i: nat)
    requires RunArray(runs) && i <= |runs|
    ensures i <= Start(runs, i) + 1
  {
    if i > 0 {
      StartGrows(runs, i - 1);
    }
  }

  /** The run array after the first pixel. */
  lemma DescribesFirst(runs: seq<int>, line: Line)
    requires |line| >= 1
    requires runs == if line[0] then [-1, 1] else [1]
    ensures Describes(runs, line[..1])
  {
    assert Start(runs, 1) == Length(runs[0]);
    if line[0] {
      assert Start(runs, 2) == 1;
    }
  }

  lemma DescribesMore(runs: seq<int>, more: seq<int>, line: Line, i: nat, n: nat)
    requires 1 <= i < |line|
    requires Describes(runs, line[..i])
    requires RunArray(more) && |more| == n >= |runs|
    requires more == runs[|runs| - 1 := runs[|runs| - 1] + 1] || more == runs + [1]
    requires line[i] == DarkRun(n - 1)
    ensures Describes(more, line[..i + 1])
  {
    forall j: nat | j < |runs| ensures Start(runs, j) == Start(more, j) {
      StartPrefix(runs, more, j);
    }
    if n > |runs| {
      StartPrefix(runs, more, |runs|);
    }
    assert Start(more, n) == i + 1;
    var now := line[..i + 1];
    forall j, k | 0 <= j < n && Start(more, j) <= k < Start(more, j) + Length(more[j]) && k < |now|
      ensures now[k] == DarkRun(j)
    {
      if k < i && j < |runs| && k < Start(runs, j) + Length(runs[j]) {
        assert line[..i][k] == DarkRun(j);
      } else if j < n - 1 {
        StartMonotone(more, j + 1, n - 1);
      }
    }
  }

  /** The line whose pixels lie pitch apart in the frame, from base on. */
  predicate LiesIn(line: Line, frame: seq<Byte>, base: nat, pitch: nat) {
    forall k | 0 <= k < |line| :: PixelIs(frame, base + k * pitch, line[k])
  }

  predicate PixelIs(frame: seq<Byte>, at: nat, dark: bool) {
    at < |frame| && dark == (frame[at] % 2 == 1)
  }

  lemma PixelOf(line: Line, frame: seq<Byte>, base: nat, pitch: nat, k: nat, at: int)
    requires LiesIn(line, frame, base, pitch)
    requires k < |line| && at == base + k * pitch
    ensures at + pitch == base + (k + 1) * pitch
    ensures 0 <= at < |frame| && line[k] == (frame[at] % 2 == 1)
  {
    assert PixelIs(frame, base + k * pitch, line[k]);
  }

  /**
   * Mask_calcRunLength: base is where the line starts in the frame, and its pixels are pitch
   * apart. The array must have room for one entry more than the line has pixels.
   */
  method CalcRunLength(width: nat, frame: array<Byte>, base: nat, pitch: nat, runLength: array<int>, ghost line: Line)
    returns (length: nat)
    requires width == |line| >= 1
    requires LiesIn(line, frame[..], base, pitch)
    requires runLength.Length >= width + 1
    modifies runLength
    ensures length <= width + 1
    ensures Describes(runLength[..length], line)
  {
    hide Describes, Start, LiesIn, RunArray;
    ghost var pixels := frame[..];
    var head := 0;
    PixelOf(line, pixels, base, pitch, 0, base);
    if frame[base] % 2 == 1 {
      runLength[0] := -1;
      head := 1;
    }
    runLength[head] := 1;
    assert runLength[..head + 1] == if line[0] then [-1, 1] else [1];
    DescribesFirst(runLength[..head + 1], line);
    var p := base + pitch;
    ghost var before := base;
    var i := 1;
    while i < width
      invariant 1 <= i <= width
      invariant head <= i
      invariant p == base + i * pitch
      invariant before == base + (i - 1) * pitch && p == before + pitch
      invariant Describes(runLength[..head + 1], line[..i])
      invariant frame[..] == pixels
    {
      ghost var was := runLength[..head + 1];
      RunLast(was, line[..i]);
      DescribesNext(was, line, i);
      PixelOf(line, pixels, base, pitch, i, p);
      PixelOf(line, pixels, base, pitch, i - 1, before);
      if frame[p] % 2 != frame[p - pitch] % 2 {
        head := head + 1;
        runLength[head] := 1;
        assert runLength[..head + 1] == was + [1];
      } else {
        runLength[head] := runLength[head] + 1;
        assert runLength[..head + 1] == was[head := was[head] + 1];
      }
      before := p;
      p := p + pitch;
      i := i + 1;
    }
    assert line[..width] == line;
    length := head + 1;
  }

  /** Mask_calcN1N3. */
  method CalcN1N3(length: nat, runLength: array<int>, ghost line: Line) returns (demerit: int)
    requires length <= runLength.Length
    requires Describes(runLength[..length], line)
    ensures demerit == LineScore(line)
  {
    hide Describes, Start;
    ghost var runs := runLength[..length];
    demerit := 0;
    for i := 0 to length
      invariant demerit == RunScore(runs, i)
    {
      if runLength[i] >= 5 {
        demerit := demerit + N1 + (runLength[i] - 5);
      }
      if i % 2 == 1 {
        if i >= 3 && i < length - 2 && runLength[i] % 3 == 0 {
          var fact := runLength[i] / 3;
          if runLength[i - 2] == fact && runLength[i - 1] == fact
            && runLength[i + 1] == fact && runLength[i + 2] == fact
          {
            if i == 3 || runLength[i - 3] >= 4 * fact {
              demerit := demerit + N3;
            } else if i + 4 >= length || runLength[i + 3] >= 4 * fact {
              demerit := demerit + N3;
            }
          }
        }
      }
    }
    RunScoreIsLineScore(runs, line);
  }

  // ----- The whole symbol

  /** The four pixels of a block, as the place p of the loop reaches them. */
  lemma BlockPixels(frame: seq<Byte>, width: nat, x: nat, y: nat, p: nat)
    requires Square(frame, width) && 1 <= x < width && 1 <= y < width
    requires p == y * width + x
    ensures 0 <= p - width - 1 && p < |frame|
    ensures Uniform(frame, width, x, y) <==>
            && (frame[p - 1] % 2 == frame[p] % 2)
            && (frame[p - width] % 2 == frame[p] % 2)
            && (frame[p - width - 1] % 2 == frame[p] % 2)
  {
    Inside(width, y, x);
    Inside(width, y - 1, x - 1);
    assert (y - 1) * width == y * width - width;
  }

  /** Mask_calcN2: the conjunction and the disjunction of the four low bits. */
  method CalcN2(width: nat, frame: array<Byte>) returns (demerit: int)
    requires Square(frame[..], width)
    ensures demerit == N2 * |UniformBlocks(frame[..], width)|
  {
    hide Uniform, UniformBlocks, BlocksBefore;
    ghost var pixels := frame[..];
    BlocksEnds(pixels, width);
    demerit := 0;
    var p := width + 1;
    for y := 1 to width
      invariant p == y * width + 1
      invariant demerit == N2 * |BlocksBefore(pixels, width, 1, y)|
    {
      for x := 1 to width
        invariant p == y * width + x
        invariant demerit == N2 * |BlocksBefore(pixels, width, x, y)|
      {
        BlockPixels(pixels, width, x, y, p);
        BlocksNext(pixels, width, x, y);
        var a, b, c, d := frame[p] % 2, frame[p - 1] % 2, frame[p - width] % 2, frame[p - width - 1] % 2;
        var b22 := a == 1 && b == 1 && c == 1 && d == 1;
        var w22 := a == 1 || b == 1 || c == 1 || d == 1;
        if b22 || !w22 {
          demerit := demerit + N2;
        }
        p := p + 1;
      }
      p := p + 1;
      assert (y + 1) * width == y * width + width;
    }
  }

  lemma RowLies(frame: seq<Byte>, width: nat, y: nat)
    requires Square(frame, width) && y < width
    ensures LiesIn(Row(frame, width, y), frame, y * width, 1)
  {
    forall x | 0 <= x < width ensures PixelIs(frame, y * width + x * 1, Row(frame, width, y)[x]) {
      Inside(width, y, x);
    }
  }

  lemma ColumnLies(frame: seq<Byte>, width: nat, x: nat)
    requires Square(frame, width) && x < width
    ensures LiesIn(Column(frame, width, x), frame, x, width)
  {
    forall y | 0 <= y < width ensures PixelIs(frame, x + y * width, Column(frame, width, x)[y]) {
      Inside(width, y, x);
    }
  }

  /** Mask_evaluateSymbol: the sum the standard asks for. */
  method EvaluateSymbol(width: nat, frame: array<Byte>) returns (demerit: int)
    requires Square(frame[..], width)
    ensures demerit == SymbolScore(frame[..], width)
  {
    hide LiesIn, Describes, LineScore, UniformBlocks, Row, Column;
    ghost var pixels := frame[..];
    var runLength := new int[width + 1];
    var length: nat, score: int;
    demerit := CalcN2(width, frame);
    for y := 0 to width
      invariant frame[..] == pixels
      invariant demerit == N2 * |UniformBlocks(pixels, width)| + RowScores(pixels, width, y)
    {
      RowLies(pixels, width, y);
      length := CalcRunLength(width, frame, y * width, 1, runLength, Row(pixels, width, y));
      score := CalcN1N3(length, runLength, Row(pixels, width, y));
      demerit := demerit + score;
    }
    for x := 0 to width
      invariant frame[..] == pixels
      invariant demerit == N2 * |UniformBlocks(pixels, width)| + RowScores(pixels, width, width)
                         + ColumnScores(pixels, width, x)
    {
      ColumnLies(pixels, width, x);
      length := CalcRunLength(width, frame, x, width, runLength, Column(pixels, width, x));
      score := CalcN1N3(length, runLength, Column(pixels, width, x));
      demerit := demerit + score;
    }
  }

  // ----- No symbol scores beyond the range of an integer

  lemma {:induction false} PixelScoreBound(line: Line, n: nat)
    requires n <= |line|
    ensures PixelScore(line, n) <= 43 * n
  {
    hide FinderAt;
    if n > 0 {
      PixelScoreBound(line, n - 1);
    }
  }

  lemma {:induction false} RowScoresBound(frame: seq<Byte>, width: nat, n: nat)
    requires Square(frame, width) && n <= width
    ensures RowScores(frame, width, n) <= 43 * (n * width)
    ensures ColumnScores(frame, width, n) <= 43 * (n * width)
  {
    hide PixelScore, Row, Column;
    if n > 0 {
      RowScoresBound(frame, width, n - 1);
      PixelScoreBound(Row(frame, width, n - 1), width);
      PixelScoreBound(Column(frame, width, n - 1), width);
      assert n * width == (n - 1) * width + width;
    }
  }

  lemma {:induction false} BlocksInRows(frame: seq<Byte>, width: nat, x: nat, y: nat)
    requires Square(frame, width) && 1 <= y <= width && 1 <= x <= width
    ensures |BlocksBefore(frame, width, x, y)| <= (y - 1) * width + x
    decreases y, x
  {
    hide BlocksBefore, Uniform;
    BlocksEnds(frame, width);
    if x > 1 {
      BlocksInRows(frame, width, x - 1, y);
      if y < width {
        BlocksNext(frame, width, x - 1, y);
      } else {
        NoBlocksBelow(frame, width, x);
        NoBlocksBelow(frame, width, x - 1);
      }
    } else if y > 1 {
      BlocksInRows(frame, width, width, y - 1);
      assert (y - 1) * width == (y - 2) * width + width;
    }
  }

  lemma NoBlocksBelow(frame: seq<Byte>, width: nat, x: nat)
    requires Square(frame, width)
    ensures BlocksBefore(frame, width, x, width) == UniformBlocks(frame, width)
  {
  }

  /** At most 89 for each module. */
  lemma SymbolScoreBound(frame: seq<Byte>, width: nat)
    requires Square(frame, width)
    ensures SymbolScore(frame, width) <= 89 * (width * width)
  {
    hide BlocksBefore, UniformBlocks;
    RowScoresBound(frame, width, width);
    BlocksEnds(frame, width);
    BlocksInRows(frame, width, 1, width);
    assert (width - 1) * width + 1 <= width * width;
  }
}
