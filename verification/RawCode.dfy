/** The order in which the codewords of a QR symbol are sent: column by column over all blocks. */
module RawCode {
  import opened Bytes

  /** One Reed-Solomon block: its data and its parity. */
  datatype Block = Block(data: Bytes, ecc: Bytes)

  /**
   * Blocks as the specification table lays them out: the first b1 have dl data bytes, the others
   * one more; all have el parity bytes.
   */
  predicate Layout(blocks: seq<Block>, b1: nat, dl: nat, el: nat) {
    && 1 <= b1 <= |blocks|
    && (forall r | 0 <= r < |blocks| :: |blocks[r].data| == (if r < b1 then dl else dl + 1))
    && (forall r | 0 <= r < |blocks| :: |blocks[r].ecc| == el)
  }

  function TotalData(blocks: seq<Block>, b1: nat, dl: nat): int
  {
    b1 * dl + (|blocks| - b1) * (dl + 1)
  }

  /** The codeword sent at place c, as the code picks it. */
  function CodeAt(blocks: seq<Block>, b1: nat, dl: nat, el: nat, c: nat): (code: Byte)
    requires Layout(blocks, b1, dl, el)
    requires c < TotalData(blocks, b1, dl) + |blocks| * el
  {
    var n := |blocks|;
    if c < TotalData(blocks, b1, dl) then
      PlaceBounds(n, b1, dl, c);
      blocks[if c / n >= dl then c % n + b1 else c % n].data[c / n]
    else
      var e := c - TotalData(blocks, b1, dl);
      EccBounds(n, el, e);
      blocks[e % n].ecc[e / n]
  }

  lemma PlaceBounds(n: nat, b1: nat, dl: nat, c: nat)
    requires 1 <= b1 <= n && c < b1 * dl + (n - b1) * (dl + 1)
    ensures 0 <= c / n <= dl && 0 <= c % n < n
    ensures c / n == dl ==> c % n + b1 < n
    ensures c == n * (c / n) + c % n
    ensures b1 * dl + (n - b1) * (dl + 1) == n * dl + (n - b1)
  {
    var q, r := c / n, c % n;
    assert c == n * q + r;
    assert b1 * dl + (n - b1) * (dl + 1) == n * dl + (n - b1);
    if q > dl {
      MulMonotone(dl + 1, q, n);
    }
  }

  lemma EccBounds(n: nat, el: nat, e: nat)
    requires n >= 1 && e < n * el
    ensures 0 <= e / n < el && 0 <= e % n < n && e == n * (e / n) + e % n
  {
    if e / n >= el {
      MulMonotone(el, e / n, n);
    }
  }

  function Interleaved(blocks: seq<Block>, b1: nat, dl: nat, el: nat): (s: Bytes)
    requires Layout(blocks, b1, dl, el)
    ensures |s| == TotalData(blocks, b1, dl) + |blocks| * el
  {
    seq(TotalData(blocks, b1, dl) + |blocks| * el,
        c requires 0 <= c < TotalData(blocks, b1, dl) + |blocks| * el => CodeAt(blocks, b1, dl, el, c))
  }

  // ----- Reading back

  /** Where byte k of block r is sent; the parity of a block follows its data. */
  function PlaceOf(blocks: seq<Block>, b1: nat, dl: nat, el: nat, r: nat, k: nat): int
    requires Layout(blocks, b1, dl, el) && r < |blocks|
  {
    var d := |blocks[r].data|;
    if k < dl then k * |blocks| + r
    else if k < d then dl * |blocks| + (r - b1)
    else TotalData(blocks, b1, dl) + (k - d) * |blocks| + r
  }

  lemma PlaceInverse(blocks: seq<Block>, b1: nat, dl: nat, el: nat, r: nat, k: nat)
    requires Layout(blocks, b1, dl, el) && r < |blocks|
    requires k < |blocks[r].data| + el
    ensures var c, n, d := PlaceOf(blocks, b1, dl, el, r, k), |blocks|, TotalData(blocks, b1, dl);
      && (k < |blocks[r].data| <==> c < d)
      && (c < d ==> k == c / n && r == (if c / n >= dl then c % n + b1 else c % n))
      && (c >= d ==> r == (c - d) % n && k == |blocks[r].data| + (c - d) / n)
  {
    var n, d := |blocks|, |blocks[r].data|;
    var c := PlaceOf(blocks, b1, dl, el, r, k);
    assert TotalData(blocks, b1, dl) == n * dl + (n - b1);
    if k < dl {
      MulMonotone(k + 1, dl, n);
      DivUnique(c, n, k, r);
    } else if k < d {
      DivUnique(c, n, dl, r - b1);
    } else {
      MulGrows(k - d, n);
      DivUnique((k - d) * n + r, n, k - d, r);
    }
  }

  lemma PlaceInRange(blocks: seq<Block>, b1: nat, dl: nat, el: nat, r: nat, k: nat)
    requires Layout(blocks, b1, dl, el) && r < |blocks|
    requires k < |blocks[r].data| + el
    ensures 0 <= PlaceOf(blocks, b1, dl, el, r, k) < TotalData(blocks, b1, dl) + |blocks| * el
  {
    var n, d := |blocks|, |blocks[r].data|;
    assert TotalData(blocks, b1, dl) == dl * n + (n - b1);
    assert 0 <= el * n == n * el;
    if k < dl {
      InGrid(n, dl, k, r);
    } else if k >= d {
      InGrid(n, el, k - d, r);
    }
  }

  /** Every byte of every block is found at its place. */
  lemma ReadBack(blocks: seq<Block>, b1: nat, dl: nat, el: nat, r: nat, k: nat)
    requires Layout(blocks, b1, dl, el) && r < |blocks|
    requires k < |blocks[r].data| + el
    ensures 0 <= PlaceOf(blocks, b1, dl, el, r, k) < |Interleaved(blocks, b1, dl, el)|
    ensures Interleaved(blocks, b1, dl, el)[PlaceOf(blocks, b1, dl, el, r, k)]
         == (blocks[r].data + blocks[r].ecc)[k]
  {
    hide PlaceOf, TotalData;
    PlaceInRange(blocks, b1, dl, el, r, k);
    PlaceInverse(blocks, b1, dl, el, r, k);
    var c := PlaceOf(blocks, b1, dl, el, r, k);
    assert Interleaved(blocks, b1, dl, el)[c] == CodeAt(blocks, b1, dl, el, c);
  }

  /** Every codeword sent is a byte of some block, and no two bytes share a place. */
  lemma PlacesCover(blocks: seq<Block>, b1: nat, dl: nat, el: nat, c: nat)
    requires Layout(blocks, b1, dl, el)
    requires c < |Interleaved(blocks, b1, dl, el)|
    ensures exists r: nat, k: nat ::
      r < |blocks| && k < |blocks[r].data| + el && PlaceOf(blocks, b1, dl, el, r, k) == c
  {
    var n := |blocks|;
    if c < TotalData(blocks, b1, dl) {
      PlaceBounds(n, b1, dl, c);
      var r := if c / n >= dl then c % n + b1 else c % n;
      assert PlaceOf(blocks, b1, dl, el, r, c / n) == c;
    } else {
      var e := c - TotalData(blocks, b1, dl);
      EccBounds(n, el, e);
      var r := e % n;
      assert PlaceOf(blocks, b1, dl, el, r, |blocks[r].data| + e / n) == c;
    }
  }

  lemma PlacesDistinct(blocks: seq<Block>, b1: nat, dl: nat, el: nat, r: nat, k: nat, r': nat, k': nat)
    requires Layout(blocks, b1, dl, el) && r < |blocks| && r' < |blocks|
    requires k < |blocks[r].data| + el && k' < |blocks[r'].data| + el
    requires PlaceOf(blocks, b1, dl, el, r, k) == PlaceOf(blocks, b1, dl, el, r', k')
    ensures r == r' && k == k'
  {
    PlaceInverse(blocks, b1, dl, el, r, k);
    PlaceInverse(blocks, b1, dl, el, r', k');
  }
}
