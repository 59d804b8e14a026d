/**
 * The zigzag along which the modules of a QR symbol are filled: pairs of columns from the right,
 * alternately upwards and downwards, without the timing column 6.
 */
module Placement {
  import opened Bytes

  /** The widths of QR symbols, 4v + 17 for versions v of at least 1. */
  predicate SymbolWidth(w: nat) {
    w % 4 == 1 && w >= 21
  }

  /** A place on the path: pair of columns, step along the pair, right or left column. */
  datatype Slot = Slot(pair: nat, step: nat, side: nat)

  /** The pair of columns 4 and 5, the first one left of the timing column. */
  function PairLeftOfTiming(w: nat): (q: nat)
    requires SymbolWidth(w)
    ensures q % 2 == 1
  {
    (w - 7) / 2
  }

  function FirstStep(w: nat, pair: nat): nat
    requires SymbolWidth(w)
  {
    if pair == PairLeftOfTiming(w) then 9 else 0
  }

  predicate OnPath(w: nat, t: Slot) {
    && SymbolWidth(w)
    && t.pair < (w - 1) / 2
    && FirstStep(w, t.pair) <= t.step < w
    && t.side < 2
  }

  function XOf(w: nat, t: Slot): (x: nat)
    requires OnPath(w, t)
    ensures x < w && x != 6
  {
    if t.pair < PairLeftOfTiming(w) then w - 1 - 2 * t.pair - t.side
    else w - 2 - 2 * t.pair - t.side
  }

  function YOf(w: nat, t: Slot): (y: nat)
    requires OnPath(w, t)
    ensures y < w
  {
    if t.pair % 2 == 0 then w - 1 - t.step else t.step
  }

  /** The place of a slot in the frame, which is stored row by row. */
  function IndexOf(w: nat, t: Slot): (i: nat)
    requires OnPath(w, t)
    ensures i < w * w
  {
    Inside(w, YOf(w, t), XOf(w, t));
    YOf(w, t) * w + XOf(w, t)
  }

  /** The modules of the symbol that the path passes: not column 6, and not the first nine rows of columns 4 and 5. */
  predicate InRegion(w: nat, x: nat, y: nat) {
    && x < w && y < w
    && x != 6
    && (x == 4 || x == 5 ==> y >= 9)
  }

  function SlotAt(w: nat, x: nat, y: nat): (t: Slot)
    requires SymbolWidth(w) && InRegion(w, x, y)
    ensures OnPath(w, t) && XOf(w, t) == x && YOf(w, t) == y
  {
    var c := if x > 6 then w - 1 - x else w - 2 - x;
    ColumnPair(w, x, c, c / 2);
    Slot(c / 2, if c / 2 % 2 == 0 then w - 1 - y else y, c % 2)
  }

  /** The pair of a column: to the right of the timing column, columns 4 and 5, and the rest. */
  lemma ColumnPair(w: nat, x: nat, c: nat, pair: nat)
    requires SymbolWidth(w) && x < w && x != 6
    requires c == (if x > 6 then w - 1 - x else w - 2 - x) && pair == c / 2
    ensures pair < (w - 1) / 2
    ensures x > 6 <==> pair < PairLeftOfTiming(w)
    ensures x == 4 || x == 5 <==> pair == PairLeftOfTiming(w)
  {
    var k := w / 4;
    assert w == 4 * k + 1;
    assert PairLeftOfTiming(w) == 2 * k - 3 && (w - 1) / 2 == 2 * k;
    assert 2 * pair <= c <= 2 * pair + 1;
  }

  lemma SlotUnique(w: nat, s: Slot, t: Slot)
    requires OnPath(w, s) && OnPath(w, t)
    requires IndexOf(w, s) == IndexOf(w, t)
    ensures s == t
  {
    DivUnique(IndexOf(w, s), w, YOf(w, s), XOf(w, s));
    DivUnique(IndexOf(w, t), w, YOf(w, t), XOf(w, t));
  }

  function First(): Slot {
    Slot(0, 0, 0)
  }

  function Next(w: nat, t: Slot): (n: Option<Slot>)
    requires OnPath(w, t)
    ensures n.Some? ==> OnPath(w, n.value)
  {
    if t.side == 0 then Some(Slot(t.pair, t.step, 1))
    else if t.step + 1 < w then Some(Slot(t.pair, t.step + 1, 0))
    else if t.pair + 1 < (w - 1) / 2 then Some(Slot(t.pair + 1, FirstStep(w, t.pair + 1), 0))
    else None
  }

  predicate Before(s: Slot, t: Slot) {
    || s.pair < t.pair
    || (s.pair == t.pair && (s.step < t.step || (s.step == t.step && s.side < t.side)))
  }

  // ----- The free modules in the order of the path

  predicate Reserved(frame: seq<Byte>, i: nat)
    requires i < |frame|
  {
    frame[i] >= 0x80
  }

  function Trail(frame: seq<Byte>, w: nat, t: Slot): (s: seq<nat>)
    requires OnPath(w, t) && |frame| == w * w
    decreases w - t.pair, w - t.step, 2 - t.side, 1
  {
    if Reserved(frame, IndexOf(w, t)) then TrailAfter(frame, w, t)
    else [IndexOf(w, t)] + TrailAfter(frame, w, t)
  }

  function TrailAfter(frame: seq<Byte>, w: nat, t: Slot): (s: seq<nat>)
    requires OnPath(w, t) && |frame| == w * w
    decreases w - t.pair, w - t.step, 2 - t.side, 0
  {
    if Next(w, t).None? then [] else Trail(frame, w, Next(w, t).value)
  }

  /** What the path relies on: the modules it does not pass are reserved. */
  predicate FunctionPatterns(frame: seq<Byte>, w: nat) {
    && SymbolWidth(w)
    && |frame| == w * w
    && forall x: nat, y: nat | x < w && y < w && !InRegion(w, x, y) :: ReservedAt(frame, w, x, y)
  }

  predicate ReservedAt(frame: seq<Byte>, w: nat, x: nat, y: nat)
    requires |frame| == w * w && x < w && y < w
  {
    Inside(w, y, x);
    Reserved(frame, y * w + x)
  }

  /** A module is on the rest of the trail just when it is free and its slot is not yet passed. */
  lemma {:induction false} TrailMembers(frame: seq<Byte>, w: nat, t: Slot, i: nat)
    requires OnPath(w, t) && |frame| == w * w
    ensures i in Trail(frame, w, t)
       <==> i < |frame| && !Reserved(frame, i) && exists s :: OnPath(w, s) && IndexOf(w, s) == i && !Before(s, t)
    decreases w - t.pair, w - t.step, 2 - t.side
  {
    hide XOf, YOf, IndexOf, Reserved;
    var next := Next(w, t);
    if next.Some? {
      TrailMembers(frame, w, next.value, i);
    }
    if s :| OnPath(w, s) && IndexOf(w, s) == i && !Before(s, t) {
      if s != t && next.Some? {
        assert !Before(s, next.value);
      }
    }
  }

  lemma {:induction false} TrailDistinct(frame: seq<Byte>, w: nat, t: Slot)
    requires OnPath(w, t) && |frame| == w * w
    ensures Distinct(Trail(frame, w, t))
    decreases w - t.pair, w - t.step, 2 - t.side
  {
    hide XOf, YOf, IndexOf, Reserved;
    var next := Next(w, t);
    if next.Some? {
      TrailDistinct(frame, w, next.value);
      var i := IndexOf(w, t);
      if i in Trail(frame, w, next.value) {
        TrailMembers(frame, w, next.value, i);
        var s :| OnPath(w, s) && IndexOf(w, s) == i && !Before(s, next.value);
        SlotUnique(w, s, t);
      }
    }
  }

  /**
   * No module is passed twice and no reserved one at all; every free module is passed just when
   * the modules the path leaves out are reserved.
   */
  lemma TrailIsEveryFreeModule(frame: seq<Byte>, w: nat)
    requires SymbolWidth(w) && |frame| == w * w
    ensures Distinct(Trail(frame, w, First()))
    ensures forall i: nat | i in Trail(frame, w, First()) :: i < |frame| && !Reserved(frame, i)
    ensures (forall i: nat | i < |frame| && !Reserved(frame, i) :: i in Trail(frame, w, First()))
       <==> FunctionPatterns(frame, w)
  {
    hide Trail, FunctionPatterns;
    TrailDistinct(frame, w, First());
    forall i: nat | i in Trail(frame, w, First()) ensures i < |frame| && !Reserved(frame, i) {
      TrailMembers(frame, w, First(), i);
    }
    if FunctionPatterns(frame, w) {
      forall i: nat | i < |frame| && !Reserved(frame, i) ensures i in Trail(frame, w, First()) {
        FreeOnPath(frame, w, i);
      }
    }
    if forall i: nat | i < |frame| && !Reserved(frame, i) :: i in Trail(frame, w, First()) {
      PathNeedsPatterns(frame, w);
    }
  }

  lemma PathNeedsPatterns(frame: seq<Byte>, w: nat)
    requires SymbolWidth(w) && |frame| == w * w
    requires forall i: nat | i < |frame| && !Reserved(frame, i) :: i in Trail(frame, w, First())
    ensures FunctionPatterns(frame, w)
  {
    hide XOf, YOf, Trail;
    forall x: nat, y: nat | x < w && y < w && !InRegion(w, x, y) ensures ReservedAt(frame, w, x, y) {
      Inside(w, y, x);
      var i := y * w + x;
      if !Reserved(frame, i) {
        TrailMembers(frame, w, First(), i);
        var s :| OnPath(w, s) && IndexOf(w, s) == i;
        DivUnique(i, w, YOf(w, s), XOf(w, s));
        DivUnique(i, w, y, x);
        SlotInRegion(w, s);
      }
    }
  }

  lemma SlotInRegion(w: nat, t: Slot)
    requires OnPath(w, t)
    ensures InRegion(w, XOf(w, t), YOf(w, t))
  {
  }

  lemma FreeOnPath(frame: seq<Byte>, w: nat, i: nat)
    requires FunctionPatterns(frame, w) && SymbolWidth(w) && |frame| == w * w
    ensures i in Trail(frame, w, First()) <==> i < |frame| && !Reserved(frame, i)
  {
    hide Trail, FunctionPatterns, Reserved, XOf, YOf, IndexOf;
    if i < |frame| {
      RowInside(w, i);
      CellOnPath(frame, w, i % w, i / w, i);
    } else {
      TrailMembers(frame, w, First(), i);
    }
  }

  lemma CellOnPath(frame: seq<Byte>, w: nat, x: nat, y: nat, i: nat)
    requires FunctionPatterns(frame, w) && x < w && y < w && i == y * w + x < |frame|
    ensures i in Trail(frame, w, First()) <==> !Reserved(frame, i)
  {
    hide XOf, YOf, IndexOf, SlotAt, InRegion, Trail;
    TrailMembers(frame, w, First(), i);
    if InRegion(w, x, y) {
      SlotIndex(w, x, y);
      assert !Before(SlotAt(w, x, y), First());
    } else {
      assert ReservedAt(frame, w, x, y);
    }
  }

  lemma SlotIndex(w: nat, x: nat, y: nat)
    requires SymbolWidth(w) && InRegion(w, x, y)
    ensures IndexOf(w, SlotAt(w, x, y)) == y * w + x
  {
    hide XOf, YOf, SlotAt;
  }

  lemma RowInside(w: nat, i: nat)
    requires w >= 1 && i < w * w
    ensures 0 <= i / w < w && 0 <= i % w < w && i / w * w + i % w == i
  {
    MulGrows(i / w, w);
    if i / w >= w {
      MulMonotone(w, i / w, w);
    }
  }

  /** The trail depends only on which modules are reserved. */
  lemma {:induction false} TrailSame(a: seq<Byte>, b: seq<Byte>, w: nat, t: Slot)
    requires OnPath(w, t) && |a| == |b| == w * w
    requires forall i: nat | i < |a| :: Reserved(a, i) == Reserved(b, i)
    ensures Trail(a, w, t) == Trail(b, w, t)
    decreases w - t.pair, w - t.step, 2 - t.side
  {
    hide XOf, YOf, IndexOf, Reserved;
    if Next(w, t).Some? {
      TrailSame(a, b, w, Next(w, t).value);
    }
  }
}
