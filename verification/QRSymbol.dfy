/** From the data codewords to the frame: blocks, parity, interleaving and placement of QRcode_encodeMask. */
module QRSymbol {
  import opened Bytes
  import opened Bits
  import opened Placement
  import opened RawCode
  import opened FrameFillers
  import RS = ReedSolomon
  import Polynomial

  // ----- Reed-Solomon blocks

  function JoinedData(blocks: seq<Block>): Bytes {
    if blocks == [] then [] else JoinedData(blocks[..|blocks| - 1]) + blocks[|blocks| - 1].data
  }

  /** Data and parity of each block are a codeword of the code with roots alpha^0 .. alpha^(el - 1). */
  ghost predicate AllCodewords(blocks: seq<Block>, el: nat) {
    forall b | b in blocks :: RS.IsCodeword(0, 1, el, b.data + b.ecc)
  }

  lemma AddBlock(blocks: seq<Block>, block: Block, datacode: Bytes, dp: nat, el: nat)
    requires dp + |block.data| <= |datacode| && block.data == datacode[dp..dp + |block.data|]
    requires JoinedData(blocks) == datacode[..dp] && AllCodewords(blocks, el)
    requires RS.IsCodeword(0, 1, el, block.data + block.ecc)
    ensures JoinedData(blocks + [block]) == datacode[..dp + |block.data|] && AllCodewords(blocks + [block], el)
  {
    hide RS.IsCodeword;
    assert (blocks + [block])[..|blocks|] == blocks;
  }

  /** RSblock_initBlock n times: blocks of dl bytes, from place dp of the data on. */
  method InitBlocks(rs: RS.RS, n: nat, dl: nat, el: nat, datacode: Bytes, dp: nat, blocks: seq<Block>)
    returns (more: seq<Block>, next: nat)
    requires rs.Valid() && rs.fcr == 0 && rs.prim == 1 && rs.nroots == el && rs.pad == 255 - dl - el
    requires el >= 1 && dl >= 1 && dl + el <= 255
    requires dp + n * dl <= |datacode| && JoinedData(blocks) == datacode[..dp] && AllCodewords(blocks, el)
    ensures next == dp + n * dl && |more| == |blocks| + n && blocks <= more
    ensures forall r | |blocks| <= r < |more| :: |more[r].data| == dl && |more[r].ecc| == el
    ensures JoinedData(more) == datacode[..next] && AllCodewords(more, el)
  {
    hide RS.IsCodeword, JoinedData, AllCodewords;
    Polynomial.CoprimePrim(1, el);
    more, next := blocks, dp;
    for i := 0 to n
      invariant next == dp + i * dl && |more| == |blocks| + i && blocks <= more
      invariant forall r | |blocks| <= r < |more| :: |more[r].data| == dl && |more[r].ecc| == el
      invariant JoinedData(more) == datacode[..next] && AllCodewords(more, el)
      invariant rs.Valid()
    {
      InGrid(dl, n, i, 0);
      assert (i + 1) * dl == i * dl + dl <= n * dl by { MulMonotone(i + 1, n, dl); }
      var part := datacode[next..next + dl];
      var data := new Byte[dl](k requires 0 <= k < dl => part[k]);
      var ecc := new Byte[el](_ => 0);
      rs.EncodeRsChar(data, ecc);
      assert data[..] == part;
      var block := Block(part, ecc[..]);
      AddBlock(more, block, datacode, next, el);
      more := more + [block];
      next := next + dl;
    }
  }

  /** RSblock_init: fails just when a block would be empty or longer than 255 bytes. */
  method RSblockInit(b1: nat, dl: nat, el: nat, b2: nat, datacode: Bytes) returns (blocks: Option<seq<Block>>)
    requires b1 >= 1 && el >= 1 && |datacode| == b1 * dl + b2 * (dl + 1)
    ensures blocks == None <==> dl == 0 || dl + el > 255 || (b2 > 0 && dl + 1 + el > 255)
    ensures blocks.Some? ==>
              && Layout(blocks.value, b1, dl, el)
              && |blocks.value| == b1 + b2
              && JoinedData(blocks.value) == datacode
              && AllCodewords(blocks.value, el)
  {
    hide RS.IsCodeword;
    var rs := RS.RS.InitRsChar(0, 1, el, 255 - dl - el);
    if rs == null {
      return None;
    }
    var first, next := InitBlocks(rs, b1, dl, el, datacode, 0, []);
    if b2 == 0 {
      assert datacode[..next] == datacode;
      return Some(first);
    }
    rs := RS.RS.InitRsChar(0, 1, el, 255 - (dl + 1) - el);
    if rs == null {
      return None;
    }
    var all, last := InitBlocks(rs, b2, dl + 1, el, datacode, next, first);
    assert datacode[..last] == datacode;
    return Some(all);
  }

  // ----- The stream of codewords

  class QRRawCode {
    var dataLength: nat
    var eccLength: nat
    var b1: nat
    var rsblock: seq<Block>
    var count: nat

    predicate Valid()
      reads this
    {
      && 1 <= b1 <= |rsblock|
      && Layout(rsblock, b1, |rsblock[0].data|, |rsblock[0].ecc|)
      && dataLength == TotalData(rsblock, b1, |rsblock[0].data|)
      && eccLength == |rsblock| * |rsblock[0].ecc|
      && count <= dataLength + eccLength
    }

    function Stream(): (s: Bytes)
      reads this
      requires Valid()
      ensures |s| == dataLength + eccLength
    {
      Interleaved(rsblock, b1, |rsblock[0].data|, |rsblock[0].ecc|)
    }

    constructor (blocks: seq<Block>, b1: nat, dl: nat, el: nat)
      requires Layout(blocks, b1, dl, el)
      ensures Valid() && count == 0 && Stream() == Interleaved(blocks, b1, dl, el)
    {
      assert 0 <= |blocks| * el;
      assert TotalData(blocks, b1, dl) >= 0;
      this.b1 := b1;
      dataLength := b1 * dl + (|blocks| - b1) * (dl + 1);
      eccLength := |blocks| * el;
      rsblock := blocks;
      count := 0;
    }

    /** QRraw_getCode: the codewords in the order of Interleaved, then zeros. */
    method GetCode() returns (ret: Byte)
      requires Valid()
      modifies `count
      ensures Valid()
      ensures old(count) < |Stream()| ==> ret == Stream()[old(count)] && count == old(count) + 1
      ensures old(count) >= |Stream()| ==> ret == 0 && count == old(count)
    {
      var row, col;
      if count < dataLength {
        PlaceBounds(|rsblock|, b1, |rsblock[0].data|, count);
        row := count % |rsblock|;
        col := count / |rsblock|;
        if col >= |rsblock[0].data| {
          row := row + b1;
        }
        ret := rsblock[row].data[col];
      } else if count < dataLength + eccLength {
        EccBounds(|rsblock|, |rsblock[0].ecc|, count - dataLength);
        row := (count - dataLength) % |rsblock|;
        col := (count - dataLength) / |rsblock|;
        ret := rsblock[row].ecc[col];
      } else {
        return 0;
      }
      count := count + 1;
    }
  }

  // ----- The modules of the symbol

  /** The module for bit m of the stream: 2 marks it as data, the low bit is the bit. */
  function ModuleAt(codes: Bytes, m: nat): Byte
    requires m < 8 * |codes|
  {
    2 + if BitsHigh(codes[m / 8], 8)[m % 8] then 1 else 0
  }

  /** All modules: the bits of the codewords, the highest first, then the remainder bits. */
  function Modules(codes: Bytes, remainder: nat): (s: Bytes)
    ensures |s| == 8 * |codes| + remainder
  {
    seq(8 * |codes| + remainder, m requires 0 <= m => if m < 8 * |codes| then ModuleAt(codes, m) else 2)
  }

  /** The values lie along the trail, and nothing else has changed. */
  ghost predicate Filled(before: seq<Byte>, now: seq<Byte>, trail: seq<nat>, values: Bytes) {
    && |now| == |before|
    && |values| <= |trail|
    && (forall k | 0 <= k < |values| :: trail[k] < |now| && now[trail[k]] == values[k])
    && (forall i | 0 <= i < |now| && i !in trail[..|values|] :: now[i] == before[i])
  }

  lemma FilledNext(before: seq<Byte>, now: seq<Byte>, trail: seq<nat>, values: Bytes, v: Byte)
    requires Filled(before, now, trail, values) && Distinct(trail)
    requires |values| < |trail| && trail[|values|] < |now|
    ensures Filled(before, now[trail[|values|] := v], trail, values + [v])
  {
    var n := |values|;
    assert trail[..n + 1] == trail[..n] + [trail[n]];
  }

  /** Writing free modules with values below 0x80 leaves the same modules free, so the trail stays. */
  lemma TrailKept(a: seq<Byte>, b: seq<Byte>, w: nat, t: Slot)
    requires OnPath(w, t) && |a| == |b| == w * w
    requires forall i: nat | i < |a| :: Reserved(a, i) == Reserved(b, i)
    ensures Trail(a, w, t) == Trail(b, w, t)
    ensures TrailAfter(a, w, t) == TrailAfter(b, w, t)
  {
    TrailSame(a, b, w, t);
    if Placement.Next(w, t).Some? {
      TrailSame(a, b, w, Placement.Next(w, t).value);
    }
  }

  /** Puts one module where the filler points. */
  method PutModule(filler: FrameFiller, value: Byte) returns (placed: bool)
    requires filler.Valid() && value < 0x80
    requires filler.Remaining() != [] ==>
               filler.Remaining()[0] < filler.frame.Length && !Reserved(filler.frame[..], filler.Remaining()[0])
    modifies filler, filler.frame
    ensures placed <==> old(filler.Remaining()) != []
    ensures placed ==> filler.Valid()
    ensures placed ==> filler.frame[..] == old(filler.frame[..][filler.Remaining()[0] := value])
    ensures placed ==> filler.Remaining() == old(filler.Remaining()[1..])
  {
    hide Trail, TrailAfter, OnPath, IndexOf, XOf, YOf;
    ghost var was := filler.frame[..];
    var p := filler.Next();
    if p == None {
      return false;
    }
    filler.frame[p.value] := value;
    TrailKept(was, filler.frame[..], filler.width, filler.at);
    return true;
  }

  /** What the filling of a frame can rely on. */
  ghost predicate Fillable(before: seq<Byte>, w: nat, trail: seq<nat>, values: Bytes) {
    && SymbolWidth(w) && |before| == w * w
    && trail == Trail(before, w, First())
    && Distinct(trail)
    && (forall i | i in trail :: i < |before| && !Reserved(before, i))
    && (forall m | 0 <= m < |values| :: values[m] < 0x80)
  }

  /** The first k values are written, and the filler is about to hand out the module for the next. */
  ghost predicate InProgress(filler: FrameFiller, before: seq<Byte>, trail: seq<nat>, values: Bytes, k: nat)
    reads filler, filler.frame
  {
    && Fillable(before, filler.width, trail, values)
    && filler.Valid()
    && k <= |trail| && k <= |values|
    && filler.Remaining() == trail[k..]
    && Filled(before, filler.frame[..], trail, values[..k])
  }

  lemma StillFree(before: seq<Byte>, now: seq<Byte>, w: nat, trail: seq<nat>, values: Bytes, k: nat, i: nat)
    requires Fillable(before, w, trail, values)
    requires k <= |trail| && k <= |values| && Filled(before, now, trail, values[..k])
    requires i in trail
    ensures i < |now| && !Reserved(now, i)
  {
    hide Trail, OnPath, Distinct;
    if i in trail[..k] {
      var j :| 0 <= j < k && trail[j] == i;
      assert now[trail[j]] == values[..k][j];
    }
  }

  /** One turn of the placing loops. */
  method PutNext(filler: FrameFiller, value: Byte, ghost before: seq<Byte>, ghost trail: seq<nat>,
      ghost values: Bytes, ghost k: nat)
    returns (placed: bool)
    requires InProgress(filler, before, trail, values, k)
    requires k < |values| && value == values[k]
    modifies filler, filler.frame
    ensures placed <==> k < |trail|
    ensures placed ==> InProgress(filler, before, trail, values, k + 1)
  {
    hide Trail, Reserved;
    ghost var now := filler.frame[..];
    if k < |trail| {
      assert trail[k] in trail;
      StillFree(before, now, filler.width, trail, values, k, trail[k]);
      FilledNext(before, now, trail, values[..k], value);
      assert values[..k] + [value] == values[..k + 1];
    }
    placed := PutModule(filler, value);
  }

  lemma ModuleBit(codes: Bytes, i: nat, j: nat)
    requires i < |codes| && j < 8
    ensures ModuleAt(codes, 8 * i + j) == 2 + if codes[i] / Pow2(7 - j) % 2 == 1 then 1 else 0
  {
    BitAt(codes[i], 8, j);
  }

  lemma Starting(filler: FrameFiller, before: seq<Byte>, trail: seq<nat>, values: Bytes)
    requires filler.Valid() && filler.bit == -1 && filler.frame[..] == before
    requires trail == Trail(before, filler.width, First())
    requires !Reserved(before, IndexOf(filler.width, First()))
    requires forall m | 0 <= m < |values| :: values[m] < 0x80
    ensures InProgress(filler, before, trail, values, 0)
  {
    TrailIsEveryFreeModule(before, filler.width);
  }

  /** The eight modules of codeword i. */
  method PlaceCode(filler: FrameFiller, code: Byte, ghost before: seq<Byte>, ghost trail: seq<nat>,
                   ghost stream: Bytes, ghost remainder: nat, ghost i: nat)
    returns (placed: bool)
    requires i < |stream| && code == stream[i]
    requires InProgress(filler, before, trail, Modules(stream, remainder), 8 * i)
    modifies filler, filler.frame
    ensures placed <==> 8 * i + 8 <= |trail|
    ensures placed ==> InProgress(filler, before, trail, Modules(stream, remainder), 8 * i + 8)
  {
    hide Trail, TrailAfter, Reserved, Filled, Fillable, ModuleAt;
    ghost var values := Modules(stream, remainder);
    var bit := 128;
    for j := 0 to 8
      invariant bit == if j < 8 then Pow2(7 - j) else 0
      invariant InProgress(filler, before, trail, values, 8 * i + j)
    {
      ModuleBit(stream, i, j);
      assert values[8 * i + j] == ModuleAt(stream, 8 * i + j);
      placed := PutNext(filler, 2 + if code / bit % 2 == 1 then 1 else 0, before, trail, values, 8 * i + j);
      if !placed {
        return;
      }
      bit := bit / 2;
    }
    return true;
  }

  /**
   * The placing part of QRcode_encodeMask: fails just when the frame has too few free modules, and
   * otherwise lays codewords and remainder bits along the trail.
   */
  method PlaceStream(width: nat, frame: array<Byte>, raw: QRRawCode, remainder: nat) returns (ok: bool)
    requires SymbolWidth(width) && frame.Length == width * width
    requires !Reserved(frame[..], IndexOf(width, First()))
    requires raw.Valid() && raw.count == 0
    modifies frame, raw`count
    ensures var trail := old(Trail(frame[..], width, First())); var values := old(Modules(raw.Stream(), remainder));
      && (ok <==> |values| <= |trail|)
      && (ok ==> Filled(old(frame[..]), frame[..], trail, values))
  {
    hide Trail, TrailAfter, Reserved, Filled, InProgress, Modules;
    ghost var before := frame[..];
    ghost var stream := raw.Stream();
    ghost var trail, values := Trail(before, width, First()), Modules(stream, remainder);
    ModulesAreData(stream, remainder);
    var filler := new FrameFiller(width, frame);
    Starting(filler, before, trail, values);
    for i := 0 to raw.dataLength + raw.eccLength
      invariant raw.Valid() && raw.count == i && raw.Stream() == stream
      invariant InProgress(filler, before, trail, values, 8 * i)
      invariant filler.frame == frame && fresh(filler)
    {
      var code := raw.GetCode();
      var placed := PlaceCode(filler, code, before, trail, stream, remainder, i);
      if !placed {
        return false;
      }
    }
    for i := 0 to remainder
      invariant InProgress(filler, before, trail, values, 8 * |stream| + i)
      invariant filler.frame == frame && fresh(filler)
    {
      RemainderModule(stream, remainder, i);
      var placed := PutNext(filler, 2, before, trail, values, 8 * |stream| + i);
      if !placed {
        return false;
      }
    }
    FilledWhole(filler, before, trail, values);
    return true;
  }

  lemma FilledWhole(filler: FrameFiller, before: seq<Byte>, trail: seq<nat>, values: Bytes)
    requires InProgress(filler, before, trail, values, |values|)
    ensures |values| <= |trail| && Filled(before, filler.frame[..], trail, values)
  {
    hide Filled, Fillable;
    assert values[..|values|] == values;
  }

  lemma RemainderModule(codes: Bytes, remainder: nat, i: nat)
    requires i < remainder
    ensures |Modules(codes, remainder)| == 8 * |codes| + remainder && Modules(codes, remainder)[8 * |codes| + i] == 2
  {
  }

  lemma ModulesAreData(codes: Bytes, remainder: nat)
    ensures |Modules(codes, remainder)| == 8 * |codes| + remainder
    ensures forall m | 0 <= m < |Modules(codes, remainder)| :: Modules(codes, remainder)[m] < 0x80
  {
  }

  // ----- Reading the symbol

  /** Codeword c of a frame: eight modules along the trail, the highest bit first. */
  function ReadCode(frame: seq<Byte>, trail: seq<nat>, c: nat): nat
    requires 8 * c + 8 <= |trail|
    requires forall m | 0 <= m < |trail| :: trail[m] < |frame|
  {
    Number(seq(8, j requires 0 <= j < 8 => frame[trail[8 * c + j]] % 2 == 1))
  }

  lemma ReadsCode(before: seq<Byte>, now: seq<Byte>, trail: seq<nat>, codes: Bytes, remainder: nat, c: nat)
    requires Filled(before, now, trail, Modules(codes, remainder))
    requires forall m | 0 <= m < |trail| :: trail[m] < |now|
    requires c < |codes|
    ensures ReadCode(now, trail, c) == codes[c]
  {
    hide BitsHigh, Number;
    var bits := seq(8, j requires 0 <= j < 8 => now[trail[8 * c + j]] % 2 == 1);
    forall j | 0 <= j < 8 ensures bits[j] == BitsHigh(codes[c], 8)[j] {
      assert now[trail[8 * c + j]] == Modules(codes, remainder)[8 * c + j] == ModuleAt(codes, 8 * c + j);
    }
    assert bits == BitsHigh(codes[c], 8);
    assert Pow2(8) == 256;
    NumberOfBits(codes[c], 8);
  }

  /**
   * The placed codewords can be read back: who follows the trail of the finished frame, which marks
   * the same modules as reserved, finds byte k of block r at its place in the stream.
   */
  lemma SymbolReadsBack(before: seq<Byte>, now: seq<Byte>, w: nat, blocks: seq<Block>, b1: nat, dl: nat, el: nat,
                        remainder: nat, r: nat, k: nat)
    requires SymbolWidth(w) && |before| == |now| == w * w && Layout(blocks, b1, dl, el)
    requires Filled(before, now, Trail(before, w, First()), Modules(Interleaved(blocks, b1, dl, el), remainder))
    requires r < |blocks| && k < |blocks[r].data| + el
    ensures var trail, c := Trail(now, w, First()), PlaceOf(blocks, b1, dl, el, r, k);
      && trail == Trail(before, w, First())
      && (forall m | 0 <= m < |trail| :: trail[m] < |now|)
      && 0 <= c && 8 * c + 8 <= |trail|
      && ReadCode(now, trail, c) == (blocks[r].data + blocks[r].ecc)[k]
  {
    hide Trail, Layout, Interleaved, PlaceOf, ReadCode;
    var trail := Trail(before, w, First());
    var stream := Interleaved(blocks, b1, dl, el);
    var values := Modules(stream, remainder);
    TrailIsEveryFreeModule(before, w);
    ModulesAreData(stream, remainder);
    SameReserved(before, now, w, trail, values);
    forall m | 0 <= m < |trail| ensures trail[m] < |now| {
      assert trail[m] in trail;
    }
    TrailSame(before, now, w, First());
    ReadBack(blocks, b1, dl, el, r, k);
    ReadsCode(before, now, trail, stream, remainder, PlaceOf(blocks, b1, dl, el, r, k));
  }

  lemma SameReserved(before: seq<Byte>, now: seq<Byte>, w: nat, trail: seq<nat>, values: Bytes)
    requires Filled(before, now, trail, values)
    requires forall i: nat | i in trail :: i < |before| && !Reserved(before, i)
    requires forall m | 0 <= m < |values| :: values[m] < 0x80
    ensures forall i: nat | i < |before| :: Reserved(before, i) == Reserved(now, i)
  {
    forall i: nat | i < |before| ensures Reserved(before, i) == Reserved(now, i) {
      var part := trail[..|values|];
      if i in part {
        var j :| 0 <= j < |part| && part[j] == i;
        assert trail[j] == i && now[trail[j]] == values[j];
      }
    }
  }
}
