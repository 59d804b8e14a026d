/**
 * The penalty score by which a QR mask is chosen: mask.c works on run lengths, the standard
 * (JIS X0510:2004, section 8.8.2) speaks of pixels. The lemmas connect the two.
 */
module Mask {

  const N1 := 3
  const N2 := 3
  const N3 := 40

  // ----- The rules, pixel by pixel. Outside the symbol everything is light.

  type Line = seq<bool>

  predicate Dark(line: Line, k: int) {
    0 <= k < |line| && line[k]
  }

  predicate Stretch(line: Line, a: int, b: int, dark: bool) {
    forall k :: a <= k < b ==> Dark(line, k) == dark
  }

  /** How many pixels up to and including p have the colour of p without a break. */
  function SameColour(line: Line, p: nat): (r: nat)
    requires p < |line|
    ensures 1 <= r <= p + 1
  {
    if p > 0 && line[p - 1] == line[p] then SameColour(line, p - 1) + 1 else 1
  }

  /** A run costs N1 when it reaches its fifth pixel, and one more for every further pixel. */
  function RunPenalty(line: Line, p: nat): int
    requires p < |line|
  {
    var r := SameColour(line, p);
    if r == 5 then N1 else if r > 5 then 1 else 0
  }

  /**
   * A pattern dark-light-dark-light-dark in the proportions 1:1:3:1:1, unit f, whose centre
   * starts at c, with four light units before it or after it.
   */
  predicate FinderAt(line: Line, c: int, f: int) {
    && f >= 1
    && !Dark(line, c - 2 * f - 1)
    && Stretch(line, c - 2 * f, c - f, true)
    && Stretch(line, c - f, c, false)
    && Stretch(line, c, c + 3 * f, true)
    && Stretch(line, c + 3 * f, c + 4 * f, false)
    && Stretch(line, c + 4 * f, c + 5 * f, true)
    && !Dark(line, c + 5 * f)
    && (Stretch(line, c - 6 * f, c - 2 * f, false) || Stretch(line, c + 5 * f, c + 9 * f, false))
  }

  ghost function FinderPenalty(line: Line, c: int): int {
    if exists f :: FinderAt(line, c, f) then N3 else 0
  }

  /** What the first n pixels of a line contribute. */
  ghost function PixelScore(line: Line, n: nat): int
    requires n <= |line|
  {
    if n == 0 then 0
    else PixelScore(line, n - 1) + RunPenalty(line, n - 1) + FinderPenalty(line, n - 1)
  }

  ghost function LineScore(line: Line): int {
    PixelScore(line, |line|)
  }

  // ----- Run arrays: light runs at even places, dark runs at odd ones; a line that starts
  // dark has -1 in place 0.

  function Length(run: int): (n: nat) {
    if run < 0 then 0 else run
  }

  predicate RunArray(runs: seq<int>) {
    && runs != []
    && (runs[0] == -1 ==> |runs| >= 2)
    && (runs[0] != -1 ==> runs[0] >= 1)
    && forall i :: 1 <= i < |runs| ==> runs[i] >= 1
  }

  function Start(runs: seq<int>, i: nat): (s: nat)
    requires i <= |runs|
  {
    if i == 0 then 0 else Start(runs, i - 1) + Length(runs[i - 1])
  }

  predicate DarkRun(i: int) {
    i % 2 == 1
  }

  /** The line described by a run array: each run written out in its colour. */
  predicate Describes(runs: seq<int>, line: Line) {
    && RunArray(runs)
    && Start(runs, |runs|) == |line|
    && forall i, k | 0 <= i < |runs| && Start(runs, i) <= k < Start(runs, i) + Length(runs[i]) && k < |line| ::
         line[k] == DarkRun(i)
  }

  lemma {:induction false} StartMonotone(runs: seq<int>, i: nat, j: nat)
    requires i <= j <= |runs|
    ensures Start(runs, i) <= Start(runs, j)
  {
    if i < j {
      StartMonotone(runs, i, j - 1);
    }
  }

  lemma {:induction false} StartPrefix(runs: seq<int>, more: seq<int>, i: nat)
    requires i <= |runs| <= |more|
    requires forall k :: 0 <= k < i ==> runs[k] == more[k]
    ensures Start(runs, i) == Start(more, i)
  {
    if i > 0 {
      StartPrefix(runs, more, i - 1);
    }
  }

  /** Where run i lies, and the colour of its pixels. */
  lemma RunSpan(runs: seq<int>, line: Line, i: nat)
    requires Describes(runs, line)
    requires i < |runs|
    ensures Start(runs, i + 1) == Start(runs, i) + Length(runs[i]) <= |line|
    ensures i == 0 ==> Start(runs, i) == 0
    ensures i + 1 == |runs| ==> Start(runs, i + 1) == |line|
    ensures i + 1 < |runs| ==> Length(runs[i + 1]) >= 1
    ensures i >= 1 ==> Length(runs[i]) == runs[i] >= 1
  {
    StartMonotone(runs, i + 1, |runs|);
  }

  lemma RunColour(runs: seq<int>, line: Line, i: nat, k: int)
    requires Describes(runs, line)
    requires i < |runs|
    requires Start(runs, i) <= k < Start(runs, i + 1)
    ensures k < |line| && Dark(line, k) == line[k] == DarkRun(i)
  {
    StartMonotone(runs, i + 1, |runs|);
  }

  lemma NotLonger(a: seq<int>, b: seq<int>, line: Line, i: nat)
    requires Describes(a, line) && Describes(b, line)
    requires i < |a| && i < |b| && Start(a, i) == Start(b, i)
    ensures Length(a[i]) <= Length(b[i])
  {
    hide Start, Describes;
    RunSpan(a, line, i);
    RunSpan(b, line, i);
    if Length(a[i]) > Length(b[i]) {
      var k := Start(b, i + 1);
      RunColour(a, line, i, k);
      if i + 1 < |b| {
        RunSpan(b, line, i + 1);
        RunColour(b, line, i + 1, k);
      }
    }
  }

  lemma {:induction false} StartsAgree(a: seq<int>, b: seq<int>, line: Line, i: nat)
    requires Describes(a, line) && Describes(b, line)
    requires i <= |a| && i <= |b|
    ensures Start(a, i) == Start(b, i) && a[..i] == b[..i]
  {
    if i > 0 {
      StartsAgree(a, b, line, i - 1);
      NotLonger(a, b, line, i - 1);
      NotLonger(b, a, line, i - 1);
      assert a[i - 1] == b[i - 1];
      assert a[..i] == a[..i - 1] + [a[i - 1]];
      assert b[..i] == b[..i - 1] + [b[i - 1]];
    }
  }

  /** Two run arrays of one line are the same: runs are maximal. */
  lemma RunArrayUnique(a: seq<int>, b: seq<int>, line: Line)
    requires Describes(a, line) && Describes(b, line)
    ensures a == b
  {
    var n := if |a| <= |b| then |a| else |b|;
    StartsAgree(a, b, line, n);
    if n < |b| {
      RunSpan(b, line, n);
    }
    if n < |a| {
      RunSpan(a, line, n);
    }
  }

  // ----- The score as the code adds it up, run by run

  predicate FinderRuns(runs: seq<int>, i: nat)
    requires i < |runs|
  {
    && DarkRun(i)
    && 3 <= i < |runs| - 2
    && runs[i] % 3 == 0
    && var f := runs[i] / 3;
    && runs[i - 2] == f && runs[i - 1] == f && runs[i + 1] == f && runs[i + 2] == f
    && (i == 3 || runs[i - 3] >= 4 * f || i + 4 >= |runs| || runs[i + 3] >= 4 * f)
  }

  function RunScore(runs: seq<int>, n: nat): int
    requires n <= |runs|
  {
    if n == 0 then 0
    else
      RunScore(runs, n - 1)
      + (if runs[n - 1] >= 5 then N1 + (runs[n - 1] - 5) else 0)
      + (if FinderRuns(runs, n - 1) then N3 else 0)
  }

  // ----- Runs of five

  lemma {:induction false} SameColourInRun(runs: seq<int>, line: Line, i: nat, k: nat)
    requires Describes(runs, line)
    requires i < |runs| && k < Length(runs[i])
    ensures Start(runs, i) + k < |line|
    ensures SameColour(line, Start(runs, i) + k) == k + 1
  {
    hide Start, Describes;
    var p := Start(runs, i) + k;
    RunSpan(runs, line, i);
    RunColour(runs, line, i, p);
    if k > 0 {
      SameColourInRun(runs, line, i, k - 1);
      RunColour(runs, line, i, p - 1);
    } else if i > 0 && p > 0 {
      RunSpan(runs, line, i - 1);
      if i > 1 { RunSpan(runs, line, i - 2); }
      RunBefore(runs, line, i);
      RunColour(runs, line, i - 1, p - 1);
    }
  }

  /** The pixel before a run that does not start the line belongs to the run before. */
  lemma RunBefore(runs: seq<int>, line: Line, i: nat)
    requires Describes(runs, line)
    requires 1 <= i <= |runs|
    ensures Start(runs, i - 1) <= Start(runs, i)
    ensures Start(runs, i) > 0 ==> Start(runs, i - 1) <= Start(runs, i) - 1
    ensures i >= 2 ==> Start(runs, i) > 0
    ensures i == 1 ==> Start(runs, i - 1) == 0
  {
  }

  // ----- Finder patterns

  /** A stretch of one colour that starts with run i and is followed by the other colour is run i. */
  lemma RunMeasured(runs: seq<int>, line: Line, i: nat, f: nat)
    requires Describes(runs, line)
    requires i < |runs| && f >= 1
    requires Stretch(line, Start(runs, i), Start(runs, i) + f, DarkRun(i))
    requires Dark(line, Start(runs, i) + f) != DarkRun(i)
    ensures Length(runs[i]) == f
    ensures !DarkRun(i) ==> i + 1 < |runs|
  {
    hide Start, Describes;
    RunSpan(runs, line, i);
    if f < Length(runs[i]) {
      RunColour(runs, line, i, Start(runs, i) + f);
    }
    if Length(runs[i]) < f {
      assert Dark(line, Start(runs, i + 1)) == DarkRun(i);
      if i + 1 < |runs| {
        RunSpan(runs, line, i + 1);
        RunColour(runs, line, i + 1, Start(runs, i + 1));
      }
    }
  }

  /** The same, backwards: a stretch that ends where run i ends. */
  lemma RunMeasuredBack(runs: seq<int>, line: Line, i: nat, f: nat)
    requires Describes(runs, line)
    requires i < |runs| && f >= 1
    requires Stretch(line, Start(runs, i + 1) - f, Start(runs, i + 1), DarkRun(i))
    requires Dark(line, Start(runs, i + 1) - f - 1) != DarkRun(i)
    ensures Length(runs[i]) == f
    ensures !DarkRun(i) ==> i >= 1
  {
    hide Start, Describes;
    RunSpan(runs, line, i);
    if f < Length(runs[i]) {
      RunColour(runs, line, i, Start(runs, i + 1) - f - 1);
    }
    if Length(runs[i]) < f {
      assert Dark(line, Start(runs, i) - 1) == DarkRun(i);
      if i > 0 && Start(runs, i) > 0 {
        RunBefore(runs, line, i);
        RunColour(runs, line, i - 1, Start(runs, i) - 1);
      }
    }
  }

  lemma RunStretch(runs: seq<int>, line: Line, i: nat)
    requires Describes(runs, line)
    requires i < |runs|
    ensures Stretch(line, Start(runs, i), Start(runs, i + 1), DarkRun(i))
  {
    hide Start, Describes;
    forall k | Start(runs, i) <= k < Start(runs, i + 1) ensures Dark(line, k) == DarkRun(i) {
      RunColour(runs, line, i, k);
    }
  }

  /** The pixels on either side of a dark run are light, or outside the symbol. */
  lemma DarkRunEnds(runs: seq<int>, line: Line, i: nat)
    requires Describes(runs, line)
    requires i < |runs| && DarkRun(i)
    ensures !Dark(line, Start(runs, i) - 1) && !Dark(line, Start(runs, i + 1))
  {
    hide Start, Describes;
    RunSpan(runs, line, i);
    RunBefore(runs, line, i);
    if Start(runs, i) > 0 {
      RunColour(runs, line, i - 1, Start(runs, i) - 1);
    }
    if i + 1 < |runs| {
      RunSpan(runs, line, i + 1);
      RunColour(runs, line, i + 1, Start(runs, i + 1));
    }
  }

  /** Four light units before the dark run i, as the code reads them off the run array. */
  lemma QuietBefore(runs: seq<int>, line: Line, i: nat, q: nat)
    requires Describes(runs, line)
    requires i < |runs| && DarkRun(i) && q >= 1
    ensures Stretch(line, Start(runs, i) - q, Start(runs, i), false) <==> i == 1 || runs[i - 1] >= q
  {
    hide Start, Describes;
    RunSpan(runs, line, i - 1);
    RunStretch(runs, line, i - 1);
    if i > 1 && runs[i - 1] < q {
      RunSpan(runs, line, i - 2);
      RunColour(runs, line, i - 2, Start(runs, i - 1) - 1);
    }
  }

  lemma QuietAfter(runs: seq<int>, line: Line, i: nat, q: nat)
    requires Describes(runs, line)
    requires i < |runs| && DarkRun(i) && q >= 1
    ensures Stretch(line, Start(runs, i + 1), Start(runs, i + 1) + q, false)
       <==> i + 2 >= |runs| || runs[i + 1] >= q
  {
    hide Start, Describes;
    RunSpan(runs, line, i);
    if i + 1 < |runs| {
      RunSpan(runs, line, i + 1);
      RunStretch(runs, line, i + 1);
      if i + 2 < |runs| && runs[i + 1] < q {
        RunSpan(runs, line, i + 2);
        RunColour(runs, line, i + 2, Start(runs, i + 2));
      }
    }
  }

  /** A pattern found in the pixels starts a dark run, and the runs around it have its proportions. */
  lemma FinderCore(runs: seq<int>, line: Line, i: nat, c: nat, f: nat)
    requires Describes(runs, line)
    requires i < |runs| && Start(runs, i) <= c < Start(runs, i + 1)
    requires FinderAt(line, c, f)
    ensures c == Start(runs, i) && DarkRun(i)
    ensures 3 <= i < |runs| - 2
    ensures runs[i] == 3 * f
    ensures runs[i - 2] == f && runs[i - 1] == f && runs[i + 1] == f && runs[i + 2] == f
    ensures Start(runs, i - 2) == c - 2 * f && Start(runs, i + 3) == c + 5 * f
  {
    hide Start, Describes;
    RunColour(runs, line, i, c);
    assert Dark(line, c) && !Dark(line, c - 1);
    if Start(runs, i) < c {
      RunColour(runs, line, i, c - 1);
    }
    FinderAfter(runs, line, i, c, f);
    FinderBefore(runs, line, i, c, f);
  }

  lemma FinderAfter(runs: seq<int>, line: Line, i: nat, c: nat, f: nat)
    requires Describes(runs, line)
    requires i < |runs| && Start(runs, i) == c && DarkRun(i)
    requires FinderAt(line, c, f)
    ensures i < |runs| - 2
    ensures runs[i] == 3 * f && runs[i + 1] == f && runs[i + 2] == f
    ensures Start(runs, i + 3) == c + 5 * f
  {
    hide Start, Describes;
    assert !Dark(line, c + 3 * f) && Dark(line, c + 4 * f);
    RunMeasured(runs, line, i, 3 * f);
    RunSpan(runs, line, i);
    RunMeasured(runs, line, i + 1, f);
    RunSpan(runs, line, i + 1);
    RunMeasured(runs, line, i + 2, f);
    RunSpan(runs, line, i + 2);
  }

  lemma FinderBefore(runs: seq<int>, line: Line, i: nat, c: nat, f: nat)
    requires Describes(runs, line)
    requires i < |runs| && Start(runs, i) == c && DarkRun(i)
    requires FinderAt(line, c, f)
    ensures i >= 3
    ensures runs[i - 2] == f && runs[i - 1] == f
    ensures Start(runs, i - 2) == c - 2 * f
  {
    hide Start, Describes;
    assert Dark(line, c - f - 1);
    RunMeasuredBack(runs, line, i - 1, f);
    RunSpan(runs, line, i - 1);
    RunMeasuredBack(runs, line, i - 2, f);
    RunSpan(runs, line, i - 2);
  }

  /** The code's test on five runs is the pattern in the pixels. */
  lemma FinderAgrees(runs: seq<int>, line: Line, i: nat, c: nat)
    requires Describes(runs, line)
    requires i < |runs| && Start(runs, i) <= c < Start(runs, i + 1)
    ensures (exists f :: FinderAt(line, c, f)) <==> c == Start(runs, i) && FinderRuns(runs, i)
  {
    hide Start, Describes;
    if f: int :| FinderAt(line, c, f) {
      FinderCore(runs, line, i, c, f);
      QuietBefore(runs, line, i - 2, 4 * f);
      QuietAfter(runs, line, i + 2, 4 * f);
    }
    if c == Start(runs, i) && FinderRuns(runs, i) {
      FinderFromRuns(runs, line, i);
    }
  }

  lemma FinderFromRuns(runs: seq<int>, line: Line, i: nat)
    requires Describes(runs, line)
    requires i < |runs| && FinderRuns(runs, i)
    ensures FinderAt(line, Start(runs, i), runs[i] / 3)
  {
    hide Start, Describes, Stretch, Dark, Length;
    var f := runs[i] / 3;
    assert runs[i] == 3 * f;
    RunSpan(runs, line, i);
    CoreFromRuns(runs, line, i, f);
    QuietBefore(runs, line, i - 2, 4 * f);
    QuietAfter(runs, line, i + 2, 4 * f);
  }

  lemma CoreFromRuns(runs: seq<int>, line: Line, i: nat, f: nat)
    requires Describes(runs, line)
    requires DarkRun(i) && 3 <= i < |runs| - 2
    requires runs[i] == 3 * f && runs[i - 2] == f && runs[i - 1] == f && runs[i + 1] == f && runs[i + 2] == f
    ensures var c := Start(runs, i);
      && f >= 1
      && !Dark(line, c - 2 * f - 1)
      && Stretch(line, c - 2 * f, c - f, true)
      && Stretch(line, c - f, c, false)
      && Stretch(line, c, c + 3 * f, true)
      && Stretch(line, c + 3 * f, c + 4 * f, false)
      && Stretch(line, c + 4 * f, c + 5 * f, true)
      && !Dark(line, c + 5 * f)
      && Start(runs, i - 2) == c - 2 * f && Start(runs, i + 3) == c + 5 * f
  {
    hide Start, Describes, Stretch, Dark;
    StretchOfRun(runs, line, i - 2);
    StretchOfRun(runs, line, i - 1);
    StretchOfRun(runs, line, i);
    StretchOfRun(runs, line, i + 1);
    StretchOfRun(runs, line, i + 2);
    DarkRunEnds(runs, line, i - 2);
    DarkRunEnds(runs, line, i + 2);
    RunSpan(runs, line, i);
  }

  lemma StretchOfRun(runs: seq<int>, line: Line, i: nat)
    requires Describes(runs, line)
    requires 1 <= i < |runs|
    ensures Start(runs, i + 1) == Start(runs, i) + runs[i]
    ensures Stretch(line, Start(runs, i), Start(runs, i) + runs[i], DarkRun(i))
  {
    RunSpan(runs, line, i);
    RunStretch(runs, line, i);
  }

  // ----- The two scores agree

  /** Inside run i: after its first k pixels the line has cost what the runs before it cost, plus its share. */
  lemma {:induction false} ScoreInRun(runs: seq<int>, line: Line, i: nat, k: nat)
    requires Describes(runs, line)
    requires i < |runs| && k <= Length(runs[i])
    ensures Start(runs, i) + k <= |line|
    ensures PixelScore(line, Start(runs, i) + k)
         == PixelScore(line, Start(runs, i))
            + (if k >= 5 then N1 + (k - 5) else 0)
            + (if k >= 1 && FinderRuns(runs, i) then N3 else 0)
  {
    hide Start, Describes, FinderRuns, FinderAt;
    RunSpan(runs, line, i);
    if k > 0 {
      ScoreInRun(runs, line, i, k - 1);
      SameColourInRun(runs, line, i, k - 1);
      FinderAgrees(runs, line, i, Start(runs, i) + k - 1);
    }
  }

  lemma {:induction false} ScoreOfRuns(runs: seq<int>, line: Line, i: nat)
    requires Describes(runs, line)
    requires i <= |runs|
    ensures Start(runs, i) <= |line|
    ensures PixelScore(line, Start(runs, i)) == RunScore(runs, i)
  {
    hide Describes, FinderAt;
    if i > 0 {
      ScoreOfRuns(runs, line, i - 1);
      RunSpan(runs, line, i - 1);
      ScoreInRun(runs, line, i - 1, Length(runs[i - 1]));
    }
  }

  /** The score computed from run lengths is the score by the pixel rules, for every line. */
  lemma RunScoreIsLineScore(runs: seq<int>, line: Line)
    requires Describes(runs, line)
    ensures RunScore(runs, |runs|) == LineScore(line)
  {
    ScoreOfRuns(runs, line, |runs|);
  }
}
