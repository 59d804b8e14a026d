/** The Merkle root of a block: level by level as in MerkleTree, and top down as in PartialMerkleTree. */
module MerkleRoot {
  import opened Bytes
  import opened MerkleSpec
  import opened MerkleCodec

  /** The number of levels above the leaves: the least depth whose tree has room for n leaves. */
  function DepthOf(n: nat): (d: nat)
    requires n > 0
    decreases n
    ensures Fits(n, d)
    ensures d > 0 ==> Pow2(d - 1) < n
  {
    if n == 1 then 0 else 1 + DepthOf((n + 1) / 2)
  }

  /** Each hash with its right neighbour, the last one with itself if it has none. */
  function Paired(h: HashFn, hs: seq<Bytes>): (r: seq<Bytes>)
    ensures |r| == (|hs| + 1) / 2
  {
    seq((|hs| + 1) / 2, i requires 0 <= i < (|hs| + 1) / 2 => PairAt(h, hs, i))
  }

  function PairAt(h: HashFn, hs: seq<Bytes>, i: nat): Bytes
    requires 2 * i < |hs|
  {
    h(hs[2 * i] + if 2 * i + 1 < |hs| then hs[2 * i + 1] else hs[2 * i])
  }

  function LevelRoot(h: HashFn, hs: seq<Bytes>): Bytes
    decreases |hs|
  {
    if hs == [] then []
    else if |hs| == 1 then hs[0]
    else LevelRoot(h, Paired(h, hs))
  }

  class MerkleTree {
    var hashes: seq<Bytes>
    const sha256d: HashFn

    constructor (sha256d: HashFn, hashes: seq<Bytes>)
      ensures this.sha256d == sha256d && this.hashes == hashes
    {
      this.sha256d := sha256d;
      this.hashes := hashes;
    }

    method AddHash(hash: Bytes)
      modifies this
      ensures hashes == old(hashes) + [hash]
    {
      hashes := hashes + [hash];
    }

    method GetRoot() returns (root: Bytes)
      ensures root == LevelRoot(sha256d, hashes)
      decreases |hashes|
    {
      if |hashes| == 0 {
        return [];
      }
      if |hashes| == 1 {
        return hashes[0];
      }
      var tree := new MerkleTree(sha256d, []);
      var i := 0;
      while i < |hashes|
        invariant i % 2 == 0 && i <= |hashes| + 1
        invariant fresh(tree) && tree.sha256d == sha256d && hashes == old(hashes)
        invariant tree.hashes == Paired(sha256d, hashes)[..(if i <= |hashes| then i / 2 else (|hashes| + 1) / 2)]
      {
        var pairedHashes := hashes[i];
        if i + 1 < |hashes| {
          pairedHashes := pairedHashes + hashes[i + 1];
        } else {
          pairedHashes := pairedHashes + hashes[i];
        }
        assert Paired(sha256d, hashes)[i / 2] == PairAt(sha256d, hashes, i / 2) == sha256d(pairedHashes);
        tree.AddHash(sha256d(pairedHashes));
        i := i + 2;
      }
      assert tree.hashes == Paired(sha256d, hashes);
      root := tree.GetRoot();
    }
  }

  lemma PairedTake(h: HashFn, hs: seq<Bytes>, k: nat)
    requires 2 * k <= |hs|
    ensures Paired(h, hs)[..k] == Paired(h, hs[..2 * k])
  {
    forall i | 0 <= i < k ensures PairAt(h, hs, i) == PairAt(h, hs[..2 * k], i) {
    }
  }

  lemma PairedDrop(h: HashFn, hs: seq<Bytes>, k: nat)
    requires 2 * k <= |hs|
    ensures Paired(h, hs)[k..] == Paired(h, hs[2 * k..])
  {
    forall i | 0 <= i < |Paired(h, hs)| - k ensures PairAt(h, hs, k + i) == PairAt(h, hs[2 * k..], i) {
    }
  }

  lemma TopDownStep(h: HashFn, hs: seq<Bytes>, depth: nat, k: nat)
    requires depth > 0 && Fits(|hs|, depth) && k == LeftCount(|hs|, depth)
    ensures var l := TopDownRoot(h, hs[..k], depth - 1);
      TopDownRoot(h, hs, depth) == h(l + if k < |hs| then TopDownRoot(h, hs[k..], depth - 1) else l)
  {
  }

  lemma TopDownOfOneOrTwo(h: HashFn, hs: seq<Bytes>)
    requires 1 <= |hs| <= 2
    ensures Fits(|hs|, 1) && TopDownRoot(h, hs, 1) == TopDownRoot(h, Paired(h, hs), 0)
  {
    assert Pow2(1) == 2;
    assert TopDownRoot(h, hs[..1], 0) == hs[0];
    assert |hs| == 2 ==> TopDownRoot(h, hs[1..], 0) == hs[1];
    assert Paired(h, hs)[0] == PairAt(h, hs, 0);
  }

  /** Splitting at powers of two commutes with pairing off the lowest level. */
  lemma {:induction false} TopDownOverPaired(h: HashFn, hs: seq<Bytes>, depth: nat)
    requires depth > 0 && Fits(|hs|, depth)
    ensures Fits(|Paired(h, hs)|, depth - 1)
    ensures TopDownRoot(h, hs, depth) == TopDownRoot(h, Paired(h, hs), depth - 1)
    decreases depth
  {
    hide Paired, TopDownRoot;
    assert Pow2(depth) == 2 * Pow2(depth - 1);
    if depth == 1 {
      TopDownOfOneOrTwo(h, hs);
    } else {
      assert Pow2(depth - 1) == 2 * Pow2(depth - 2);
      var up := Paired(h, hs);
      var k, k' := LeftCount(|hs|, depth), LeftCount(|up|, depth - 1);
      TopDownStep(h, hs, depth, k);
      TopDownStep(h, up, depth - 1, k');
      TopDownOverPaired(h, hs[..k], depth - 1);
      if k < |hs| {
        PairedTake(h, hs, k');
        PairedDrop(h, hs, k');
        TopDownOverPaired(h, hs[k..], depth - 1);
      } else {
        assert hs[..k] == hs && up[..k'] == up;
      }
    }
  }

  /** For every number of leaves, the root built top down is the root computed level by level. */
  lemma {:induction false} TopDownRootIsLevelRoot(h: HashFn, hs: seq<Bytes>)
    requires hs != []
    ensures TopDownRoot(h, hs, DepthOf(|hs|)) == LevelRoot(h, hs)
    decreases |hs|
  {
    if |hs| > 1 {
      TopDownOverPaired(h, hs, DepthOf(|hs|));
      TopDownRootIsLevelRoot(h, Paired(h, hs));
    }
  }
}
