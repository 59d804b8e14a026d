/** The object of qrencode.c that hands out the modules of a frame one by one. */
module FrameFillers {
  import opened Bytes
  import opened Placement

  function Direction(t: Slot): int {
    if t.pair % 2 == 0 then -1 else 1
  }

  /** The three moves along the path: to the left column, up or down the pair, to the next pair. */
  lemma Moves(w: nat, t: Slot)
    requires OnPath(w, t)
    ensures var n := Placement.Next(w, t);
      if t.side == 0 then
        n.Some? && XOf(w, n.value) == XOf(w, t) - 1 && YOf(w, n.value) == YOf(w, t)
        && Direction(n.value) == Direction(t) && n.value.side == 1
      else if 0 <= YOf(w, t) + Direction(t) < w then
        n.Some? && XOf(w, n.value) == XOf(w, t) + 1 && YOf(w, n.value) == YOf(w, t) + Direction(t)
        && Direction(n.value) == Direction(t) && n.value.side == 0
      else
        && (n == None <==> XOf(w, t) == 0)
        && YOf(w, t) + Direction(t) == (if Direction(t) < 0 then -1 else w)
        && (n.Some? ==>
              && n.value.side == 0
              && Direction(n.value) == -Direction(t)
              && var x := XOf(w, t) - 1;
              && XOf(w, n.value) == (if x == 6 then 5 else x)
              && (x == 6 ==> Direction(t) < 0)
              && YOf(w, n.value) == (if x == 6 then 9 else if Direction(t) < 0 then 0 else w - 1))
  {
  }

  lemma TrailStep(frame: seq<Byte>, w: nat, t: Slot)
    requires OnPath(w, t) && |frame| == w * w
    ensures var n := Placement.Next(w, t);
      if n == None then TrailAfter(frame, w, t) == []
      else
        var i := IndexOf(w, n.value);
        && i == YOf(w, n.value) * w + XOf(w, n.value)
        && TrailAfter(frame, w, t)
           == if Reserved(frame, i) then TrailAfter(frame, w, n.value) else [i] + TrailAfter(frame, w, n.value)
  {
  }

  lemma IndexIs(w: nat, t: Slot)
    requires OnPath(w, t)
    ensures IndexOf(w, t) == YOf(w, t) * w + XOf(w, t)
  {
  }

  lemma NextLater(w: nat, t: Slot)
    requires OnPath(w, t) && Placement.Next(w, t).Some?
    ensures var n := Placement.Next(w, t).value; Before(t, n) && n != First()
  {
  }

  class FrameFiller {
    const width: nat
    const frame: array<Byte>
    var x: int
    var y: int
    var dir: int
    var bit: int
    ghost var at: Slot

    /** The state is a slot of the path; bit -1 says that the first one is not handed out yet. */
    ghost predicate Valid()
      reads this
    {
      && SymbolWidth(width)
      && frame.Length == width * width
      && OnPath(width, at)
      && x == XOf(width, at) && y == YOf(width, at)
      && dir == Direction(at)
      && (bit == at.side || (bit == -1 && at == First()))
    }

    /** The modules still to come. The first call returns the corner without looking at it. */
    ghost function Remaining(): (s: seq<nat>)
      reads this, frame
      requires Valid()
    {
      if bit == -1 then [IndexOf(width, First())] + TrailAfter(frame[..], width, First())
      else TrailAfter(frame[..], width, at)
    }

    constructor (width: nat, frame: array<Byte>)
      requires SymbolWidth(width) && frame.Length == width * width
      ensures Valid() && this.width == width && this.frame == frame && bit == -1
    {
      this.width := width;
      this.frame := frame;
      x := width - 1;
      y := width - 1;
      dir := -1;
      bit := -1;
      at := First();
    }

    /** FrameFiller_next: NULL once the path has left the symbol. */
    method Next() returns (p: Option<nat>)
      requires Valid()
      modifies this
      ensures old(Remaining()) == [] ==> p == None
      ensures old(Remaining()) != [] ==>
                && Valid() && bit != -1
                && p == Some(old(Remaining())[0])
                && Remaining() == old(Remaining())[1..]
      decreases if bit == -1 then 0 else 1, width - at.pair, width - at.step, 2 - at.side
    {
      hide XOf, YOf, IndexOf, Trail, TrailAfter, FirstStep, PairLeftOfTiming, Placement.Next;
      Moves(width, at);
      TrailStep(frame[..], width, at);
      if bit == -1 {
        bit := 0;
        Inside(width, y, x);
        IndexIs(width, at);
        return Some(y * width + x);
      }
      var x', y' := x, y;
      if bit == 0 {
        x' := x' - 1;
        bit := bit + 1;
      } else {
        x' := x' + 1;
        y' := y' + dir;
        bit := bit - 1;
      }
      if dir < 0 {
        if y' < 0 {
          y' := 0;
          x' := x' - 2;
          dir := 1;
          if x' == 6 {
            x' := x' - 1;
            y' := 9;
          }
        }
      } else {
        if y' == width {
          y' := width - 1;
          x' := x' - 2;
          dir := -1;
          if x' == 6 {
            x' := x' - 1;
            y' := y' - 8;
          }
        }
      }
      if x' < 0 || y' < 0 {
        return None;
      }
      x, y := x', y';
      NextLater(width, at);
      at := Placement.Next(width, at).value;
      Inside(width, y, x);
      if frame[y * width + x] >= 0x80 {
        p := Next();
        return;
      }
      return Some(y * width + x);
    }
  }
}
