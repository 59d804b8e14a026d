/** Masking a symbol, writing its format information, and choosing the mask with the lowest score (mask.c). */
module MaskChoice {
  import opened Bytes
  import opened MaskScore
  import opened Placement

  const N4 := 10
  const MASK_NUM := 8
  const INT_MAX := 0x7FFF_FFFF

  /** Where mask number m turns a module over. */
  predicate Flips(m: nat, x: nat, y: nat) {
    match m
    case 0 => (x + y) % 2 == 0
    case 1 => y % 2 == 0
    case 2 => x % 3 == 0
    case 3 => (x + y) % 3 == 0
    case 4 => (y / 2 + x / 3) % 2 == 0
    case 5 => (x * y) % 2 + (x * y) % 3 == 0
    case 6 => ((x * y) % 2 + (x * y) % 3) % 2 == 0
    case _ => ((x * y) % 3 + (x + y) % 2) % 2 == 0
  }

  /** Two of the masks in terms of one remainder of the product, where the code adds two. */
  lemma FlipsByProduct(x: nat, y: nat)
    ensures Flips(5, x, y) <==> x * y % 6 == 0
    ensures Flips(6, x, y) <==> x * y % 6 < 3
  {
    ByRemainder(x * y);
  }

  lemma ByRemainder(p: nat)
    ensures p % 2 + p % 3 == 0 <==> p % 6 == 0
    ensures (p % 2 + p % 3) % 2 == 0 <==> p % 6 < 3
  {
    var q, r := p / 6, p % 6;
    DivUnique(p, 2, 3 * q + r / 2, r % 2);
    DivUnique(p, 3, 2 * q + r / 3, r % 3);
  }

  /** Exclusive or with one. */
  function Flipped(v: Byte): (r: Byte)
    ensures r % 2 != v % 2 && r / 2 == v / 2
  {
    if v % 2 == 1 then v - 1 else v + 1
  }

  function MaskedModule(m: nat, v: Byte, x: nat, y: nat): Byte {
    if v < 0x80 && Flips(m, x, y) then Flipped(v) else v
  }

  function Masked(m: nat, frame: seq<Byte>, w: nat): (r: seq<Byte>)
    requires Square(frame, w)
    ensures |r| == |frame|
  {
    seq(|frame|, k requires 0 <= k < |frame| => MaskedModule(m, frame[k], k % w, k / w))
  }

  /** Masking twice changes nothing, and masking keeps what is reserved. */
  lemma MaskTwice(m: nat, frame: seq<Byte>, w: nat)
    requires Square(frame, w)
    ensures Masked(m, Masked(m, frame, w), w) == frame
    ensures forall i: nat | i < |frame| :: Reserved(Masked(m, frame, w), i) == Reserved(frame, i)
  {
  }

  // ----- Dark modules

  function DarkCount(s: seq<Byte>): (n: nat)
    ensures n <= |s|
  {
    if s == [] then 0 else DarkCount(s[..|s| - 1]) + s[|s| - 1] % 2
  }

  lemma {:induction false} DarkCountUpdate(s: seq<Byte>, i: nat, v: Byte)
    requires i < |s|
    ensures DarkCount(s[i := v]) == DarkCount(s) - s[i] % 2 + v % 2
  {
    var n := |s| - 1;
    if i == n {
      assert s[i := v][..n] == s[..n];
    } else {
      DarkCountUpdate(s[..n], i, v);
      assert s[i := v][..n] == s[..n][i := v];
    }
  }

  method MaskMaker(m: nat, width: nat, s: array<Byte>, d: array<Byte>) returns (b: nat)
    requires Square(s[..], width) && d.Length == s.Length && s != d
    modifies d
    ensures d[..] == Masked(m, s[..], width) && b == DarkCount(d[..])
  {
    hide Flips, Flipped, Masked;
    ghost var goal := Masked(m, s[..], width);
    b := 0;
    var p := 0;
    NoneDark();
    for y := 0 to width
      invariant p == y * width
      invariant s[..] == old(s[..])
      invariant p <= d.Length && d[..p] == goal[..p] && b == DarkCount(goal[..p])
    {
      for x := 0 to width
        invariant p == y * width + x
        invariant s[..] == old(s[..])
        invariant p <= d.Length && d[..p] == goal[..p] && b == DarkCount(goal[..p])
      {
        Inside(width, y, x);
        MaskedAt(m, s[..], width, x, y);
        if s[p] >= 0x80 {
          d[p] := s[p];
        } else {
          d[p] := if Flips(m, x, y) then Flipped(s[p]) else s[p];
        }
        assert d[p] == goal[p];
        b := b + d[p] % 2;
        assert goal[..p + 1][..p] == goal[..p];
        p := p + 1;
      }
      assert (y + 1) * width == y * width + width;
    }
    assert d[..p] == d[..] && goal[..p] == goal;
  }

  lemma NoneDark()
    ensures DarkCount([]) == 0
  {
  }

  lemma MaskedAt(m: nat, frame: seq<Byte>, w: nat, x: nat, y: nat)
    requires Square(frame, w) && x < w && y < w
    ensures y * w + x < |frame|
    ensures Masked(m, frame, w)[y * w + x] == MaskedModule(m, frame[y * w + x], x, y)
  {
    Inside(w, y, x);
    DivUnique(y * w + x, w, y, x);
  }

  // ----- Format information

  /** The two places of format bit i, as column and row: along the lines of column 8 and row 8. */
  function FormatX(w: nat, i: nat, copy: bool): int {
    if copy then if i < 8 then 8 else if i == 8 then 7 else 14 - i
    else if i < 8 then w - 1 - i else 8
  }

  function FormatY(w: nat, i: nat, copy: bool): int {
    if copy then if i < 6 then i else if i < 8 then i + 1 else 8
    else if i < 8 then 8 else w - 15 + i
  }

  function FormatPlace(w: nat, i: nat, copy: bool): (p: nat)
    requires SymbolWidth(w) && i < 15
    ensures p < w * w
  {
    Inside(w, FormatY(w, i, copy), FormatX(w, i, copy));
    FormatY(w, i, copy) * w + FormatX(w, i, copy)
  }

  /** No place is used twice. */
  lemma FormatPlacesDistinct(w: nat, i: nat, c: bool, j: nat, d: bool)
    requires SymbolWidth(w) && i < 15 && j < 15
    ensures FormatPlace(w, i, c) == FormatPlace(w, j, d) <==> i == j && c == d
  {
    DivUnique(FormatPlace(w, i, c), w, FormatY(w, i, c), FormatX(w, i, c));
    DivUnique(FormatPlace(w, j, d), w, FormatY(w, j, d), FormatX(w, j, d));
  }

  predicate FormatBit(format: nat, i: nat) {
    format / Pow2(i) % 2 == 1
  }

  function FormatModule(format: nat, i: nat): Byte {
    if FormatBit(format, i) then 0x85 else 0x84
  }

  /** The frame after n bits of the format have been written, each in both places. */
  function WithBits(frame: seq<Byte>, w: nat, format: nat, n: nat): (r: seq<Byte>)
    requires Square(frame, w) && SymbolWidth(w) && n <= 15
    ensures |r| == |frame|
  {
    if n == 0 then frame
    else
      var f, v := WithBits(frame, w, format, n - 1), FormatModule(format, n - 1);
      f[FormatPlace(w, n - 1, false) := v][FormatPlace(w, n - 1, true) := v]
  }

  function WithFormat(frame: seq<Byte>, w: nat, format: nat): (r: seq<Byte>)
    requires Square(frame, w) && SymbolWidth(w)
    ensures |r| == |frame|
  {
    WithBits(frame, w, format, 15)
  }

  /** Both copies of every bit are there, and no other module has changed. */
  lemma {:induction false} WithBitsMeans(frame: seq<Byte>, w: nat, format: nat, n: nat)
    requires Square(frame, w) && SymbolWidth(w) && n <= 15
    ensures forall i: nat, c: bool | i < n ::
              WithBits(frame, w, format, n)[FormatPlace(w, i, c)] == FormatModule(format, i)
    ensures forall k: nat | k < |frame| && (forall i: nat, c: bool | i < n :: FormatPlace(w, i, c) != k) ::
              WithBits(frame, w, format, n)[k] == frame[k]
  {
    hide FormatPlace, FormatModule;
    if n > 0 {
      WithBitsMeans(frame, w, format, n - 1);
      forall i: nat, c: bool | i < n
        ensures WithBits(frame, w, format, n)[FormatPlace(w, i, c)] == FormatModule(format, i)
      {
        FormatPlacesDistinct(w, i, c, n - 1, false);
        FormatPlacesDistinct(w, i, c, n - 1, true);
      }
    }
  }

  /** How many of the first n bits are set. */
  function BitsSet(format: nat, n: nat): nat {
    if n == 0 then 0 else BitsSet(format, n - 1) + if FormatBit(format, n - 1) then 1 else 0
  }

  /** The places of the format are reserved and light, as QRspec_createFrame leaves them. */
  predicate FormatReserved(frame: seq<Byte>, w: nat) {
    && SymbolWidth(w) && Square(frame, w)
    && forall i: nat, c: bool | i < 15 :: frame[FormatPlace(w, i, c)] >= 0x80 && frame[FormatPlace(w, i, c)] % 2 == 0
  }

  /** The count of dark modules goes up by two for each bit set. */
  lemma {:induction false} FormatDark(frame: seq<Byte>, w: nat, format: nat, n: nat)
    requires FormatReserved(frame, w) && n <= 15
    ensures DarkCount(WithBits(frame, w, format, n)) == DarkCount(frame) + 2 * BitsSet(format, n)
  {
    hide FormatPlace, FormatBit, DarkCount;
    if n > 0 {
      FormatDark(frame, w, format, n - 1);
      var f, v := WithBits(frame, w, format, n - 1), FormatModule(format, n - 1);
      var p, q := FormatPlace(w, n - 1, false), FormatPlace(w, n - 1, true);
      UnwrittenBit(frame, w, format, n - 1, false);
      UnwrittenBit(frame, w, format, n - 1, true);
      FormatPlacesDistinct(w, n - 1, false, n - 1, true);
      DarkCountUpdate(f, p, v);
      DarkCountUpdate(f[p := v], q, v);
    }
  }

  lemma UnwrittenBit(frame: seq<Byte>, w: nat, format: nat, n: nat, c: bool)
    requires Square(frame, w) && SymbolWidth(w) && n < 15
    ensures WithBits(frame, w, format, n)[FormatPlace(w, n, c)] == frame[FormatPlace(w, n, c)]
  {
    hide FormatPlace, WithBits, FormatModule;
    WithBitsMeans(frame, w, format, n);
    forall i: nat, d: bool | i < n ensures FormatPlace(w, i, d) != FormatPlace(w, n, c) {
      FormatPlacesDistinct(w, i, d, n, c);
    }
  }

  method WriteFormatInformation(width: nat, frame: array<Byte>, format: nat) returns (blacks: nat)
    requires SymbolWidth(width) && Square(frame[..], width)
    modifies frame
    ensures frame[..] == WithFormat(old(frame[..]), width, format)
    ensures blacks == 2 * BitsSet(format, 15)
  {
    hide WithBits, BitsSet, Pow2, FormatPlace;
    ghost var before := frame[..];
    blacks := 0;
    var rest := format;
    var v: Byte;
    NoBitsYet(before, width, format);
    for i := 0 to 8
      invariant rest == format / Pow2(i)
      invariant frame[..] == WithBits(before, width, format, i) && blacks == 2 * BitsSet(format, i)
    {
      NextBit(before, width, format, i);
      if rest % 2 == 1 {
        blacks := blacks + 2;
        v := 0x85;
      } else {
        v := 0x84;
      }
      PutLow(width, frame, i, v);
      rest := rest / 2;
    }
    for i := 0 to 7
      invariant rest == format / Pow2(8 + i)
      invariant frame[..] == WithBits(before, width, format, 8 + i) && blacks == 2 * BitsSet(format, 8 + i)
    {
      NextBit(before, width, format, 8 + i);
      if rest % 2 == 1 {
        blacks := blacks + 2;
        v := 0x85;
      } else {
        v := 0x84;
      }
      PutHigh(width, frame, i, v);
      rest := rest / 2;
    }
  }

  /** Format bit i below 8, in its two places. */
  method PutLow(width: nat, frame: array<Byte>, i: nat, v: Byte)
    requires SymbolWidth(width) && Square(frame[..], width) && i < 8
    modifies frame
    ensures frame[..] == old(frame[..])[FormatPlace(width, i, false) := v][FormatPlace(width, i, true) := v]
  {
    FormatIndex(width, i);
    frame[width * 8 + width - 1 - i] := v;
    if i < 6 {
      frame[width * i + 8] := v;
    } else {
      frame[width * (i + 1) + 8] := v;
    }
  }

  /** Format bit 8 + i. */
  method PutHigh(width: nat, frame: array<Byte>, i: nat, v: Byte)
    requires SymbolWidth(width) && Square(frame[..], width) && i < 7
    modifies frame
    ensures frame[..] == old(frame[..])[FormatPlace(width, 8 + i, false) := v][FormatPlace(width, 8 + i, true) := v]
  {
    FormatIndex(width, 8 + i);
    frame[width * (width - 7 + i) + 8] := v;
    if i == 0 {
      frame[width * 8 + 7] := v;
    } else {
      frame[width * 8 + 6 - i] := v;
    }
  }

  lemma NoBitsYet(frame: seq<Byte>, w: nat, format: nat)
    requires Square(frame, w) && SymbolWidth(w)
    ensures WithBits(frame, w, format, 0) == frame && BitsSet(format, 0) == 0
    ensures format / Pow2(0) == format
  {
  }

  lemma NextBit(frame: seq<Byte>, w: nat, format: nat, n: nat)
    requires Square(frame, w) && SymbolWidth(w) && n < 15
    ensures var f, v := WithBits(frame, w, format, n), FormatModule(format, n);
      WithBits(frame, w, format, n + 1) == f[FormatPlace(w, n, false) := v][FormatPlace(w, n, true) := v]
    ensures BitsSet(format, n + 1) == BitsSet(format, n) + if FormatBit(format, n) then 1 else 0
    ensures format / Pow2(n + 1) == format / Pow2(n) / 2
  {
    HalfTwice(format, Pow2(n));
  }

  /** The places as the code computes them. */
  lemma FormatIndex(w: nat, i: nat)
    requires SymbolWidth(w) && i < 15
    ensures i < 8 ==> FormatPlace(w, i, false) == w * 8 + w - 1 - i
    ensures i < 6 ==> FormatPlace(w, i, true) == w * i + 8
    ensures 6 <= i < 8 ==> FormatPlace(w, i, true) == w * (i + 1) + 8
    ensures i >= 8 ==> FormatPlace(w, i, false) == w * (w - 15 + i) + 8
    ensures i == 8 ==> FormatPlace(w, i, true) == w * 8 + 7
    ensures i > 8 ==> FormatPlace(w, i, true) == w * 8 + 14 - i
  {
  }

  // ----- The choice

  /** The symbol under mask m, with the format information for it. */
  function Candidate(frame: seq<Byte>, w: nat, formats: seq<nat>, m: nat): (r: seq<Byte>)
    requires Square(frame, w) && SymbolWidth(w) && m < |formats|
    ensures |r| == |frame|
  {
    WithFormat(Masked(m, frame, w), w, formats[m])
  }

  function Abs(n: int): nat {
    if n < 0 then -n else n
  }

  /** The penalty for an uneven share of dark modules. */
  function RatioPenalty(blacks: nat, w2: nat): int
    requires w2 > 0
  {
    Abs((200 * blacks + w2) / w2 / 2 - 50) / 5 * N4
  }

  ghost function Score(c: seq<Byte>, w: nat): int
    requires Square(c, w)
  {
    MulMonotone(1, w, w);
    RatioPenalty(DarkCount(c), w * w) + SymbolScore(c, w)
  }

  ghost function CandidateScore(frame: seq<Byte>, w: nat, formats: seq<nat>, m: nat): int
    requires Square(frame, w) && SymbolWidth(w) && m < |formats|
  {
    Score(Candidate(frame, w, formats, m), w)
  }

  lemma CandidateDark(frame: seq<Byte>, w: nat, formats: seq<nat>, m: nat)
    requires FormatReserved(frame, w) && m < |formats|
    ensures DarkCount(Candidate(frame, w, formats, m)) == DarkCount(Masked(m, frame, w)) + 2 * BitsSet(formats[m], 15)
  {
    hide FormatPlace, WithBits, BitsSet, DarkCount;
    FormatDark(Masked(m, frame, w), w, formats[m], 15);
  }

  /** Ten for every full five percent by which the share of dark modules, rounded to whole percents, is off a half. */
  lemma RatioPenaltyMeans(blacks: nat, w2: nat) returns (percent: nat, steps: nat)
    requires w2 > 0
    ensures (2 * percent - 1) * w2 <= 200 * blacks < (2 * percent + 1) * w2
    ensures 5 * steps <= Abs(percent - 50) < 5 * steps + 5
    ensures RatioPenalty(blacks, w2) == 10 * steps
  {
    var q := (200 * blacks + w2) / w2;
    assert 200 * blacks + w2 == q * w2 + (200 * blacks + w2) % w2;
    MulGrows(q, w2);
    percent := q / 2;
    steps := Abs(percent - 50) / 5;
    MulMonotone(2 * percent, q, w2);
    MulMonotone(q + 1, 2 * percent + 2, w2);
    assert (2 * percent - 1) * w2 == 2 * percent * w2 - w2;
    assert (2 * percent + 2) * w2 == (2 * percent + 1) * w2 + w2;
    assert (q + 1) * w2 == q * w2 + w2;
  }

  lemma RatioPenaltyBound(blacks: nat, w2: nat)
    requires 0 < w2 && blacks <= w2
    ensures RatioPenalty(blacks, w2) <= 100
  {
    var r := (200 * blacks + w2) / w2;
    assert 200 * blacks + w2 <= 201 * w2;
    MulGrows(r, w2);
    if r > 201 {
      MulMonotone(202, r, w2);
    }
  }

  /** No symbol reaches the integer limit, so that a mask is always chosen. */
  lemma ScoreBelowLimit(c: seq<Byte>, w: nat)
    requires Square(c, w) && SymbolWidth(w) && w <= 177
    ensures Score(c, w) < INT_MAX
  {
    hide RatioPenalty, SymbolScore, DarkCount;
    MulMonotone(1, w, w);
    RatioPenaltyBound(DarkCount(c), w * w);
    SymbolScoreBound(c, w);
    MulMonotone(w, 177, w);
  }

  lemma FirstBelowLimit(frame: seq<Byte>, w: nat, formats: seq<nat>)
    requires FormatReserved(frame, w) && |formats| > 0 && w <= 177
    ensures CandidateScore(frame, w, formats, 0) < INT_MAX
  {
    hide Candidate, Score;
    ScoreBelowLimit(Candidate(frame, w, formats, 0), w);
  }

  /** One round of the choice: the candidate in the buffer, and its score. */
  method ScoreMask(m: nat, width: nat, frame: array<Byte>, formats: seq<nat>, mask: array<Byte>) returns (demerit: int)
    requires FormatReserved(frame[..], width) && m < |formats|
    requires mask != frame && mask.Length == frame.Length
    modifies mask
    ensures mask[..] == Candidate(frame[..], width, formats, m)
    ensures demerit == CandidateScore(frame[..], width, formats, m)
  {
    hide Masked, WithFormat, SymbolScore, DarkCount, BitsSet, FormatPlace;
    var w2 := width * width;
    MulMonotone(1, width, width);
    var blacks := MaskMaker(m, width, frame, mask);
    var more := WriteFormatInformation(width, mask, formats[m]);
    blacks := blacks + more;
    CandidateDark(frame[..], width, formats, m);
    var bratio := (200 * blacks + w2) / w2 / 2;
    demerit := Abs(bratio - 50) / 5 * N4;
    var score := EvaluateSymbol(width, mask);
    demerit := demerit + score;
  }

  /**
   * Mask_mask: the first of the masks with the lowest score, where the score is the one the standard
   * asks for, with the dark modules counted in the finished symbol.
   */
  method MaskMask(width: nat, frame: array<Byte>, formats: seq<nat>) returns (bestMask: array?<Byte>, ghost chosen: nat)
    requires FormatReserved(frame[..], width) && |formats| == MASK_NUM && width <= 177
    ensures bestMask != null
    ensures
      && fresh(bestMask) && chosen < MASK_NUM
      && bestMask[..] == Candidate(frame[..], width, formats, chosen)
      && (forall j: nat | j < MASK_NUM ::
            CandidateScore(frame[..], width, formats, chosen) <= CandidateScore(frame[..], width, formats, j))
      && (forall j: nat | j < chosen ::
            CandidateScore(frame[..], width, formats, chosen) < CandidateScore(frame[..], width, formats, j))
  {
    hide Candidate, CandidateScore, Score, FormatPlace;
    ghost var f := frame[..];
    var w2 := width * width;
    var minDemerit := INT_MAX;
    var mask := new Byte[w2](_ => 0);
    bestMask, chosen := null, 0;
    FirstBelowLimit(f, width, formats);
    for i := 0 to MASK_NUM
      invariant frame[..] == f && mask.Length == w2 && fresh(mask) && mask != bestMask
      invariant bestMask == null ==> minDemerit == INT_MAX
      invariant i > 0 ==> bestMask != null
      invariant forall j: nat | j < i :: minDemerit <= CandidateScore(f, width, formats, j)
      invariant bestMask != null ==>
                  fresh(bestMask) && chosen < i && bestMask[..] == Candidate(f, width, formats, chosen)
      invariant bestMask != null ==> minDemerit == CandidateScore(f, width, formats, chosen) < INT_MAX
      invariant bestMask != null ==> forall j: nat | j < chosen :: minDemerit < CandidateScore(f, width, formats, j)
    {
      var demerit := ScoreMask(i, width, frame, formats, mask);
      if demerit < minDemerit {
        minDemerit := demerit;
        bestMask, chosen := mask, i;
        mask := new Byte[w2](_ => 0);
      }
    }
  }

  /** Taking the mask off a finished symbol gives back every module that is not reserved. */
  lemma Unmasked(frame: seq<Byte>, w: nat, formats: seq<nat>, m: nat)
    requires FormatReserved(frame, w) && m < |formats|
    ensures var back := Masked(m, Candidate(frame, w, formats, m), w);
      && (forall i: nat | i < |frame| :: Reserved(back, i) == Reserved(frame, i))
      && (forall i: nat | i < |frame| && !Reserved(frame, i) :: back[i] == frame[i])
  {
    hide FormatPlace, WithBits;
    var masked := Masked(m, frame, w);
    var c := Candidate(frame, w, formats, m);
    MaskTwice(m, frame, w);
    MaskTwice(m, c, w);
    WithBitsMeans(masked, w, formats[m], 15);
    forall k: nat | k < |frame|
      ensures Reserved(c, k) == Reserved(frame, k)
      ensures !Reserved(frame, k) ==> c[k] == masked[k]
    {
      if exists i: nat, d: bool :: i < 15 && FormatPlace(w, i, d) == k {
        var i: nat, d: bool :| i < 15 && FormatPlace(w, i, d) == k;
        assert c[k] == FormatModule(formats[m], i);
      } else {
        assert c[k] == masked[k];
      }
    }
    forall k: nat | k < |frame| && !Reserved(frame, k) ensures Masked(m, c, w)[k] == frame[k] {
      assert Masked(m, c, w)[k] == Masked(m, masked, w)[k];
    }
  }
}
