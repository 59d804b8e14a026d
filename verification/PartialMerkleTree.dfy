/** The partial Merkle tree as the program keeps it: an object whose lists are filled, spliced and
    merged in place, fed from queues that are emptied as they are read. */
module PartialMerkleTree {
  import opened Bytes
  import opened MerkleSpec
  import opened MerkleCodec
  import opened MerkleFlags
  import opened MerkleMerge
  import opened MerkleRoot
  import opened MerkleShape

  class Queue<T> {
    var items: seq<T>

    constructor (items: seq<T>)
      ensures this.items == items
    {
      this.items := items;
    }

    method Push(x: T)
      modifies this
      ensures items == old(items) + [x]
    {
      items := items + [x];
    }

    method Pop() returns (x: T)
      requires items != []
      modifies this
      ensures x == old(items[0]) && items == old(items[1..])
    {
      x := items[0];
      items := items[1..];
    }

    method Swap(other: Queue<T>)
      modifies this, other
      ensures items == old(other.items) && other.items == old(items)
    {
      var mine := items;
      items := other.items;
      other.items := mine;
    }
  }

  /** The indices are the places of the hashes that are among the transactions, each once and in rising order. */
  ghost predicate Indexes(indices: seq<nat>, hashes: seq<Bytes>, txs: seq<Bytes>)
  {
    && (forall j :: 0 <= j < |indices| ==> indices[j] < |hashes|)
    && (forall i, j :: 0 <= i < j < |indices| ==> indices[i] < indices[j])
    && (forall k: nat :: k < |hashes| ==> (k in indices <==> hashes[k] in txs))
  }

  /** Nothing is left open: there is one such list. */
  lemma {:induction false} IndexesUnique(a: seq<nat>, b: seq<nat>, hashes: seq<Bytes>, txs: seq<Bytes>)
    requires Indexes(a, hashes, txs) && Indexes(b, hashes, txs)
    ensures a == b
  {
    if hashes != [] {
      var last := |hashes| - 1;
      UpToLast(a, hashes, txs);
      UpToLast(b, hashes, txs);
      IndexesUnique(if hashes[last] in txs then a[..|a| - 1] else a, if hashes[last] in txs then b[..|b| - 1] else b,
        hashes[..last], txs);
    } else {
      IndexNeedsHash(a, hashes, txs);
      IndexNeedsHash(b, hashes, txs);
    }
  }

  lemma IndexNeedsHash(a: seq<nat>, hashes: seq<Bytes>, txs: seq<Bytes>)
    requires Indexes(a, hashes, txs)
    ensures a != [] ==> hashes != []
  {
    if a != [] {
      assert a[0] < |hashes|;
    }
  }

  lemma UpToLast(a: seq<nat>, hashes: seq<Bytes>, txs: seq<Bytes>)
    requires hashes != [] && Indexes(a, hashes, txs)
    ensures var last := |hashes| - 1;
      if hashes[last] in txs then a != [] && a == a[..|a| - 1] + [last] && Indexes(a[..|a| - 1], hashes[..last], txs)
      else Indexes(a, hashes[..last], txs)
  {
    var last := |hashes| - 1;
    if hashes[last] in txs {
      var j :| 0 <= j < |a| && a[j] == last;
      var front, end := a[..|a| - 1], |a| - 1;
      assert a[j] <= a[end] <= last;
      assert a == front + [last];
      forall i | 0 <= i < |front| ensures front[i] < last {
        assert a[i] < a[end];
      }
    }
  }

  // What the results on queues mean for two whole trees.

  lemma MergeOfStored(h: HashFn, mine: Node, theirs: Node, depth: nat)
    requires SelfDecoding(h, mine, depth) && SelfDecoding(h, theirs, depth) && mine.root == theirs.root
    ensures var m := MergeQueues(h, Stream(mine), Stream(theirs), depth);
      if m.Failed? then m.reason == HashMismatch
      else
        && Elements(m.txs) == Elements(mine.txs) + Elements(theirs.txs)
        && forall tx :: tx in m.txs ==> Authentic(h, tx, depth, mine.root)
  {
    MergeSafe(h, Stream(mine), Stream(theirs), depth);
    DecodedIsAuthentic(h, Stream(mine), depth);
    DecodedIsAuthentic(h, Stream(theirs), depth);
    DecodedHasData(h, Stream(mine), depth);
    DecodedHasData(h, Stream(theirs), depth);
    var m := MergeQueues(h, Stream(mine), Stream(theirs), depth);
    if m.Merged? {
      assert forall tx :: tx in m.txs ==> tx in Elements(m.txs);
    }
  }

  /** Stored trees stay stored trees when they are merged, unless a node is stranded or there is a collision. */
  lemma MergeOfUnstranded(h: HashFn, mine: Node, theirs: Node, depth: nat) returns (x: Bytes, y: Bytes)
    requires SelfDecoding(h, mine, depth) && SelfDecoding(h, theirs, depth) && mine.root == theirs.root
    requires AllHashes(mine.hashes) && AllHashes(theirs.hashes)
    ensures Parse(Stream(mine), depth).Parsed? && Parse(Stream(theirs), depth).Parsed?
    ensures var m := MergeQueues(h, Stream(mine), Stream(theirs), depth);
      var ta, tb := Parse(Stream(mine), depth).tree, Parse(Stream(theirs), depth).tree;
      m.Merged? && !Stranded(ta, tb) ==>
        || SelfDecoding(h, Node(mine.root, m.hashes, m.txs, m.bits), depth)
        || (Collision(h, x, y) && {x, y} <= HashedIn(h, ta) + HashedIn(h, tb))
  {
    hide Decode, MergeQueues, Parse, Stranded, HashedIn, Collision;
    x, y := [], [];
    DecodeIsParse(h, Stream(mine), depth);
    DecodeIsParse(h, Stream(theirs), depth);
    var m := MergeQueues(h, Stream(mine), Stream(theirs), depth);
    var ta, tb := Parse(Stream(mine), depth).tree, Parse(Stream(theirs), depth).tree;
    if m.Merged? && !Stranded(ta, tb) {
      x, y := MergedKeepsRoot(h, Stream(mine), Stream(theirs), depth, m, Together(ta, tb));
    }
  }

  lemma MergeOfConforming(h: HashFn, mine: Node, theirs: Node, n: nat, depth: nat)
    requires Fits(n, depth) && Conforms(h, mine, n, depth) && Conforms(h, theirs, n, depth)
    ensures var m := MergeQueues(h, Stream(mine), Stream(theirs), depth);
      m.Merged? ==>
        var merged := Node(mine.root, m.hashes, m.txs, m.bits);
        m.hashes != [] && Conforms(h, merged, n, depth) && SelfDecoding(h, merged, depth)
  {
    var end := Queues([], []);
    assert Append(Stream(mine), end) == Stream(mine) && Append(Stream(theirs), end) == Stream(theirs);
    MergeConforming(h, Stream(mine), Stream(theirs), n, depth);
    var m := MergeQueues(h, Stream(mine), Stream(theirs), depth);
    if m.Merged? {
      var merged := Node(mine.root, m.hashes, m.txs, m.bits);
      ConformingReadsBack(h, merged, n, depth, end);
      assert Append(Stream(merged), end) == Stream(merged);
    }
  }

  ghost predicate MergesToUnion(h: HashFn, mine: Node, theirs: Node, a: seq<MerkleLeaf>, b: seq<MerkleLeaf>, depth: nat)
    requires HashesOf(a) == HashesOf(b) && Fits(|a|, depth)
  {
    var m := MergeQueues(h, Stream(mine), Stream(theirs), depth);
    m.Merged? && mine.root == theirs.root && Node(mine.root, m.hashes, m.txs, m.bits) == Build(h, United(a, b), depth)
  }

  lemma MergeOfBuilt(h: HashFn, a: seq<MerkleLeaf>, b: seq<MerkleLeaf>, depth: nat)
    requires HashesOf(a) == HashesOf(b) && Fits(|a|, depth)
    ensures |a| == |b| && MergesToUnion(h, Build(h, a, depth), Build(h, b, depth), a, b, depth)
  {
    var end := Queues([], []);
    MergeBuilt(h, a, b, depth, end, end);
    BuildRootOfHashes(h, a, depth);
    BuildRootOfHashes(h, b, depth);
    BuildRootOfHashes(h, United(a, b), depth);
    var mine, theirs := Build(h, a, depth), Build(h, b, depth);
    assert Append(Stream(mine), end) == Stream(mine) && Append(Stream(theirs), end) == Stream(theirs);
  }

  // One unfolding of each recursion, for the methods below.

  lemma BuildStep(h: HashFn, leaves: seq<MerkleLeaf>, depth: nat)
    requires Fits(|leaves|, depth)
    ensures depth == 0 ==> Build(h, leaves, depth) == LeafNode(leaves[0].hash, leaves[0].matched)
    ensures depth > 0 ==>
      var k := LeftCount(|leaves|, depth);
      var l := Build(h, leaves[..k], depth - 1);
      Build(h, leaves, depth) ==
        PruneUnmatched(if k < |leaves| then Join(h, l, Build(h, leaves[k..], depth - 1)) else Lone(h, l))
  {
  }

  lemma DecodeStep(h: HashFn, q: Queues, depth: nat)
    ensures q.hashes == [] || q.bits == [] ==> Decode(h, q, depth) == Malformed
    ensures q.hashes != [] && q.bits != [] && !IsInner(q, depth) ==>
      Decode(h, q, depth) == Decoded(LeafNode(q.hashes[0], q.bits[0]), Queues(q.hashes[1..], q.bits[1..]))
    ensures q.hashes != [] && IsInner(q, depth) ==>
      match Decode(h, Below(q), depth - 1)
      case Malformed => Decode(h, q, depth) == Malformed
      case Decoded(l, q') =>
        if q'.hashes == [] then Decode(h, q, depth) == Decoded(Lone(h, l), q')
        else
          match Decode(h, q', depth - 1)
          case Malformed => Decode(h, q, depth) == Malformed
          case Decoded(r, q'') => Decode(h, q, depth) == Decoded(Join(h, l, r), q'')
  {
  }

  lemma MergeNodesStep(h: HashFn, h1: seq<Bytes>, h2: seq<Bytes>, bit1: bool, bit2: bool, b1: seq<bool>,
      b2: seq<bool>, depth: nat)
    requires h1 != [] && h2 != []
    ensures var m := MergeNodes(h, h1, h2, bit1, bit2, b1, b2, depth);
      if depth == 0 || !(bit1 || bit2) then
        m == if h1[0] != h2[0] then Failed(HashMismatch)
             else Merged([h1[0]], if bit1 || bit2 then [h1[0]] else [], [bit1 || bit2],
                         Queues(h1[1..], b1), Queues(h2[1..], b2))
      else if bit1 && bit2 then
        match MergeQueues(h, Queues(h1, b1), Queues(h2, b2), depth - 1)
        case Failed(e) => m == Failed(e)
        case Merged(lh, lt, lb, q1, q2) =>
          (match MergeQueues(h, q1, q2, depth - 1)
           case Failed(e) => m == Failed(e)
           case Merged(rh, rt, rb, q1', q2') => m == Merged(lh + rh, lt + rt, [true] + lb + rb, q1', q2'))
      else
        var deep := if bit2 then Queues(h2, [true] + b2) else Queues(h1, [true] + b1);
        var pruned := if bit2 then Queues(h1, b1) else Queues(h2, b2);
        match Decode(h, deep, depth)
        case Malformed => m == Failed(BadData)
        case Decoded(n, q) =>
          m == if n.root != pruned.hashes[0] then Failed(HashMismatch)
               else Merged(n.hashes, n.txs, n.bits, q, Queues(pruned.hashes[1..], pruned.bits))
  {
    hide Decode, MergeQueues;
  }

  class PartialMerkleTree {
    const sha256d: HashFn
    var nTxs: nat
    var depth: nat
    var merkleHashes: seq<Bytes>
    var txHashes: seq<Bytes>
    var txIndices: seq<nat>
    var bits: seq<bool>
    var root: Bytes

    constructor (sha256d: HashFn)
      ensures this.sha256d == sha256d && Empty()
    {
      this.sha256d := sha256d;
      nTxs, depth := 0, 0;
      merkleHashes, txHashes, txIndices, bits, root := [], [], [], [], [];
    }

    predicate Empty()
      reads this
    {
      merkleHashes == [] && txHashes == [] && bits == []
    }

    ghost function AsNode(): Node
      reads this
    {
      Node(root, merkleHashes, txHashes, bits)
    }

    /** What was stored can be decoded again, to the same tree. */
    ghost predicate Valid()
      reads this
    {
      nTxs > 0 && depth == DepthOf(nTxs) && SelfDecoding(sha256d, AsNode(), depth)
    }

    /** The reference parser of the format accepts what was stored. */
    ghost predicate Conforming()
      reads this
    {
      nTxs > 0 && depth == DepthOf(nTxs) && merkleHashes != [] && Conforms(sha256d, AsNode(), nTxs, depth)
    }

    /** This is the tree of these leaves. */
    ghost predicate Holds(leaves: seq<MerkleLeaf>)
      reads this
    {
      leaves != [] && nTxs == |leaves| && depth == DepthOf(nTxs) && AsNode() == Build(sha256d, leaves, depth)
    }

    /** Each reported transaction is tied to the root by as many siblings as the tree has levels. */
    ghost predicate Authenticated()
      reads this
    {
      forall tx :: tx in txHashes ==> Authentic(sha256d, tx, depth, root)
    }

    /** The indices point at the reported transactions among the stored hashes. */
    ghost predicate Indexed()
      reads this
    {
      Indexes(txIndices, merkleHashes, txHashes)
    }

    // ----- Building

    method SetUncompressed(leaves: seq<MerkleLeaf>) returns (r: Outcome<TreeError>)
      modifies this
      ensures r == if leaves == [] then Thrown(NoLeaves) else Done
      ensures r.Done? ==> Holds(leaves) && Indexed()
      ensures r.Thrown? ==> unchanged(this)
    {
      if |leaves| == 0 {
        return Thrown(NoLeaves);
      }
      nTxs := |leaves|;
      merkleHashes := [];
      txHashes := [];
      bits := [];
      var d := ComputeDepth(nTxs);
      BuildRange(leaves, 0, |leaves|, d);
      assert leaves[0..|leaves|] == leaves;
      UpdateTxIndices();
      r := Done;
    }

    method BuildRange(leaves: seq<MerkleLeaf>, begin: nat, end: nat, depth0: nat)
      requires begin < end <= |leaves| && Fits(end - begin, depth0)
      requires Empty()
      modifies this
      ensures depth == depth0 && nTxs == old(nTxs)
      ensures AsNode() == Build(sha256d, leaves[begin..end], depth0)
      decreases depth0
    {
      hide Build;
      BuildStep(sha256d, leaves[begin..end], depth0);
      depth := depth0;
      if depth0 == 0 {
        root := leaves[begin].hash;
        merkleHashes := merkleHashes + [leaves[begin].hash];
        if leaves[begin].matched {
          txHashes := txHashes + [leaves[begin].hash];
        }
        bits := bits + [leaves[begin].matched];
        return;
      }
      var below := depth0 - 1;
      var partition := if Pow2(below) < end - begin then Pow2(below) else end - begin;
      ghost var range := leaves[begin..end];
      assert range[..partition] == leaves[begin..begin + partition];
      assert range[partition..] == leaves[begin + partition..end];
      var leftSubtree := new PartialMerkleTree(sha256d);
      leftSubtree.BuildRange(leaves, begin, begin + partition, below);
      merkleHashes := leftSubtree.merkleHashes;
      txHashes := leftSubtree.txHashes;
      bits := leftSubtree.bits;
      if begin + partition < end {
        var rightSubtree := new PartialMerkleTree(sha256d);
        rightSubtree.BuildRange(leaves, begin + partition, end, below);
        root := sha256d(leftSubtree.root + rightSubtree.root);
        Splice(rightSubtree);
        assert [true] + bits == [true] + leftSubtree.bits + rightSubtree.bits;
      } else {
        root := sha256d(leftSubtree.root + leftSubtree.root);
      }
      if txHashes == [] {
        merkleHashes := [root];
        bits := [false];
      } else {
        bits := [true] + bits;
      }
    }

    // ----- Decoding

    method SetCompressed(count: nat, hashes: seq<Bytes>, flags: Bytes, merkleRoot: Bytes)
      returns (r: Outcome<TreeError>)
      modifies this
      ensures count == 0 ==> r == Thrown(NoTransactions)
      ensures count > 0 ==>
        match Decode(sha256d, Queues(hashes, Unpack(flags)), DepthOf(count))
        case Malformed => r == Thrown(BadData)
        case Decoded(n, _) =>
          && r == (if merkleRoot != [] && merkleRoot != Reverse(n.root) then Thrown(WrongRoot) else Done)
          && (r.Done? ==>
              && nTxs == count && depth == DepthOf(count) && AsNode() == n && Valid() && Authenticated()
              && Indexed())
    {
      if count == 0 {
        return Thrown(NoTransactions);
      }
      nTxs := count;
      var d := ComputeDepth(nTxs);
      merkleHashes := [];
      txHashes := [];
      bits := [];
      var hashQueue := new Queue(hashes);
      var bitQueue := UnpackFlags(flags);
      r := DecodeQueues(hashQueue, bitQueue, d);
      if r.Thrown? {
        return;
      }
      if merkleRoot != [] && merkleRoot != Reverse(root) {
        return Thrown(WrongRoot);
      }
      UpdateTxIndices();
      DecodedIsSelfDecoding(sha256d, Queues(hashes, Unpack(flags)), d);
      DecodedIsAuthentic(sha256d, Queues(hashes, Unpack(flags)), d);
    }

    method DecodeQueues(hashQueue: Queue<Bytes>, bitQueue: Queue<bool>, depth0: nat) returns (r: Outcome<TreeError>)
      requires Empty()
      modifies this, hashQueue, bitQueue
      ensures nTxs == old(nTxs)
      ensures var d := Decode(sha256d, Queues(old(hashQueue.items), old(bitQueue.items)), depth0);
        if d.Malformed? then r == Thrown(BadData)
        else r == Done && depth == depth0 && AsNode() == d.node && Queues(hashQueue.items, bitQueue.items) == d.rest
      decreases depth0, 0
    {
      hide Decode;
      DecodeStep(sha256d, Queues(hashQueue.items, bitQueue.items), depth0);
      depth := depth0;
      if hashQueue.items == [] || bitQueue.items == [] {
        return Thrown(BadData);
      }
      assert [bitQueue.items[0]] + bitQueue.items[1..] == bitQueue.items;
      var bit := bitQueue.Pop();
      bits := bits + [bit];
      if depth0 == 0 || !bit {
        root := hashQueue.items[0];
        merkleHashes := merkleHashes + [hashQueue.items[0]];
        if bit {
          txHashes := txHashes + [hashQueue.items[0]];
        }
        var _ := hashQueue.Pop();
        return Done;
      }
      r := DecodeInner(hashQueue, bitQueue, depth0 - 1);
    }

    /** The part of the decoder below a set bit: the left subtree, and the right one if hashes remain. */
    method DecodeInner(hashQueue: Queue<Bytes>, bitQueue: Queue<bool>, below: nat) returns (r: Outcome<TreeError>)
      requires merkleHashes == [] && txHashes == [] && bits == [true] && hashQueue.items != []
      modifies this, hashQueue, bitQueue
      ensures nTxs == old(nTxs) && depth == old(depth)
      ensures var d := Decode(sha256d, Queues(old(hashQueue.items), [true] + old(bitQueue.items)), below + 1);
        if d.Malformed? then r == Thrown(BadData)
        else r == Done && AsNode() == d.node && Queues(hashQueue.items, bitQueue.items) == d.rest
      decreases below, 1
    {
      hide Decode;
      assert ([true] + bitQueue.items)[1..] == bitQueue.items;
      DecodeStep(sha256d, Queues(hashQueue.items, [true] + bitQueue.items), below + 1);
      var leftSubtree := new PartialMerkleTree(sha256d);
      r := leftSubtree.DecodeQueues(hashQueue, bitQueue, below);
      if r.Thrown? {
        return;
      }
      merkleHashes := leftSubtree.merkleHashes;
      txHashes := leftSubtree.txHashes;
      bits := bits + leftSubtree.bits;
      if hashQueue.items != [] {
        var rightSubtree := new PartialMerkleTree(sha256d);
        r := rightSubtree.DecodeQueues(hashQueue, bitQueue, below);
        if r.Thrown? {
          return;
        }
        root := sha256d(leftSubtree.root + rightSubtree.root);
        Splice(rightSubtree);
        assert AsNode() == Join(sha256d, leftSubtree.AsNode(), rightSubtree.AsNode());
      } else {
        root := sha256d(leftSubtree.root + leftSubtree.root);
        assert AsNode() == Lone(sha256d, leftSubtree.AsNode());
      }
    }

    method GetFlags() returns (flags: Bytes)
      ensures Carries(flags, bits)
    {
      flags := PackFlags(bits);
    }

    // ----- Merging

    method Merge(other: PartialMerkleTree) returns (r: Outcome<TreeError>)
      requires other.sha256d == sha256d
      modifies this
      ensures MergedWith(old(AsNode()), old(nTxs), old(depth), old(other.AsNode()), old(other.nTxs),
        old(other.depth), r)
      ensures r.Done? ==> Indexed()
      // for stored trees, only these exceptions are possible, and exactly the transactions of both remain
      ensures old(Valid()) && old(other.Valid()) ==>
        if r.Thrown? then r.reason in {CountDiffers, DepthDiffers, RootDiffers, HashMismatch}
        else Elements(txHashes) == Elements(old(txHashes)) + Elements(old(other.txHashes)) && Authenticated()
      // trees of the format's shape stay so
      ensures old(Conforming()) && old(other.Conforming()) && r.Done? ==> Conforming() && Valid()
      // trees over the same leaves always merge, to the tree of the united matches
      ensures forall a, b | old(Holds(a)) && old(other.Holds(b)) && HashesOf(a) == HashesOf(b) ::
        r == Done && Holds(United(a, b))
    {
      hide MergeQueues, Build, Decode, SelfDecoding, Conforms, DepthOf, MergedWith, Elements, HashesOf, Authentic,
        Authenticated, Indexed;
      ghost var mine, myTxs, myDepth := AsNode(), nTxs, depth;
      ghost var theirs, theirTxs, theirDepth := other.AsNode(), other.nTxs, other.depth;
      r := MergeLists(other);
      if old(Valid()) && old(other.Valid()) {
        MergedStored(mine, myTxs, myDepth, theirs, theirTxs, theirDepth, r);
      }
      if old(Conforming()) && old(other.Conforming()) && r.Done? {
        MergedConforming(mine, myTxs, myDepth, theirs, theirTxs, theirDepth, r);
      }
      forall a, b | old(Holds(a)) && old(other.Holds(b)) && HashesOf(a) == HashesOf(b)
        ensures |a| == |b| && r == Done && Holds(United(a, b))
      {
        MergedBuilt(mine, myTxs, myDepth, theirs, theirTxs, theirDepth, r, a, b);
      }
    }

    lemma MergedStored(mine: Node, myTxs: nat, myDepth: nat, theirs: Node, theirTxs: nat, theirDepth: nat,
                       r: Outcome<TreeError>)
      requires MergedWith(mine, myTxs, myDepth, theirs, theirTxs, theirDepth, r)
      requires SelfDecoding(sha256d, mine, myDepth) && SelfDecoding(sha256d, theirs, theirDepth)
      ensures if r.Thrown? then r.reason in {CountDiffers, DepthDiffers, RootDiffers, HashMismatch}
              else Elements(txHashes) == Elements(mine.txs) + Elements(theirs.txs) && Authenticated()
    {
      hide MergeQueues, SelfDecoding, Authentic;
      if mine.root == theirs.root && myDepth == theirDepth {
        MergeOfStored(sha256d, mine, theirs, myDepth);
      }
    }

    lemma MergedConforming(mine: Node, myTxs: nat, myDepth: nat, theirs: Node, theirTxs: nat, theirDepth: nat,
                           r: Outcome<TreeError>)
      requires MergedWith(mine, myTxs, myDepth, theirs, theirTxs, theirDepth, r) && r.Done?
      requires myTxs > 0 && myDepth == DepthOf(myTxs) && Conforms(sha256d, mine, myTxs, myDepth)
      requires theirTxs > 0 && theirDepth == DepthOf(theirTxs) && Conforms(sha256d, theirs, theirTxs, theirDepth)
      ensures Conforming() && Valid()
    {
      hide MergeQueues, SelfDecoding, Conforms, DepthOf;
      MergeOfConforming(sha256d, mine, theirs, myTxs, myDepth);
    }

    lemma MergedBuilt(mine: Node, myTxs: nat, myDepth: nat, theirs: Node, theirTxs: nat, theirDepth: nat,
                      r: Outcome<TreeError>, a: seq<MerkleLeaf>, b: seq<MerkleLeaf>)
      requires MergedWith(mine, myTxs, myDepth, theirs, theirTxs, theirDepth, r)
      requires HashesOf(a) == HashesOf(b) && a != [] && b != []
      requires myTxs == |a| && myDepth == DepthOf(myTxs) && mine == Build(sha256d, a, myDepth)
      requires theirTxs == |b| && theirDepth == DepthOf(theirTxs) && theirs == Build(sha256d, b, theirDepth)
      ensures |a| == |b| && r == Done && Holds(United(a, b))
    {
      hide MergeQueues, Build, DepthOf;
      MergeOfBuilt(sha256d, a, b, myDepth);
    }

    /** What a merge does to this tree, given both trees as they were before it. */
    ghost predicate MergedWith(mine: Node, myTxs: nat, myDepth: nat, theirs: Node, theirTxs: nat, theirDepth: nat,
                               r: Outcome<TreeError>)
      reads this
    {
      var m := MergeQueues(sha256d, Stream(mine), Stream(theirs), myDepth);
      && nTxs == myTxs && depth == myDepth && root == mine.root
      && (if myTxs != theirTxs then r == Thrown(CountDiffers)
          else if myDepth != theirDepth then r == Thrown(DepthDiffers)
          else if mine.root != theirs.root then r == Thrown(RootDiffers)
          else if m.Failed? then r == Thrown(m.reason)
          else
            && r == Done && AsNode() == Node(mine.root, m.hashes, m.txs, m.bits)
            && Indexed())
    }

    method MergeLists(other: PartialMerkleTree) returns (r: Outcome<TreeError>)
      requires other.sha256d == sha256d
      modifies this
      ensures MergedWith(old(AsNode()), old(nTxs), old(depth), old(other.AsNode()), old(other.nTxs),
        old(other.depth), r)
      ensures r.Done? ==> Indexed()
    {
      hide MergeQueues, Indexes;
      if nTxs != other.nTxs {
        return Thrown(CountDiffers);
      }
      if depth != other.depth {
        return Thrown(DepthDiffers);
      }
      if root != other.root {
        return Thrown(RootDiffers);
      }
      var hashQueue1 := new Queue(merkleHashes);
      var bitQueue1 := new Queue(bits);
      var hashQueue2 := new Queue(other.merkleHashes);
      var bitQueue2 := new Queue(other.bits);
      merkleHashes := [];
      txHashes := [];
      bits := [];
      r := MergeFrom(hashQueue1, hashQueue2, bitQueue1, bitQueue2, depth);
      if r.Thrown? {
        return;
      }
      UpdateTxIndices();
    }

    /** Adds to the lists of this tree what merging the subtrees in front of the queues gives. */
    method MergeFrom(hashQueue1: Queue<Bytes>, hashQueue2: Queue<Bytes>, bitQueue1: Queue<bool>, bitQueue2: Queue<bool>,
                     depth0: nat) returns (r: Outcome<TreeError>)
      requires hashQueue1 != hashQueue2 && bitQueue1 != bitQueue2
      modifies this, hashQueue1, hashQueue2, bitQueue1, bitQueue2
      ensures nTxs == old(nTxs) && depth == old(depth) && root == old(root)
      ensures var m := MergeQueues(sha256d, Queues(old(hashQueue1.items), old(bitQueue1.items)),
                                   Queues(old(hashQueue2.items), old(bitQueue2.items)), depth0);
        if m.Failed? then r == Thrown(m.reason)
        else
          && r == Done
          && AsNode() == Node(root, old(merkleHashes) + m.hashes, old(txHashes) + m.txs, old(bits) + m.bits)
          && Queues(hashQueue1.items, bitQueue1.items) == m.q1 && Queues(hashQueue2.items, bitQueue2.items) == m.q2
      decreases depth0, 1
    {
      hide Decode, MergeNodes;
      if hashQueue1.items == [] {
        hashQueue1.Swap(hashQueue2);
        bitQueue1.Swap(bitQueue2);
      }
      if hashQueue2.items == [] {
        if hashQueue1.items == [] {
          return Done;
        }
        var tree := new PartialMerkleTree(sha256d);
        r := tree.DecodeQueues(hashQueue1, bitQueue1, depth0);
        if r.Done? {
          Splice(tree);
        }
        return;
      }
      if bitQueue1.items == [] || bitQueue2.items == [] {
        return Thrown(Undefined); // the program would read the front of an empty queue here
      }
      r := MergeHere(hashQueue1, hashQueue2, bitQueue1, bitQueue2, depth0);
    }

    /** Both trees have a node here. */
    method MergeHere(hashQueue1: Queue<Bytes>, hashQueue2: Queue<Bytes>, bitQueue1: Queue<bool>, bitQueue2: Queue<bool>,
                     depth0: nat) returns (r: Outcome<TreeError>)
      requires hashQueue1 != hashQueue2 && bitQueue1 != bitQueue2
      requires hashQueue1.items != [] && hashQueue2.items != [] && bitQueue1.items != [] && bitQueue2.items != []
      modifies this, hashQueue1, hashQueue2, bitQueue1, bitQueue2
      ensures nTxs == old(nTxs) && depth == old(depth) && root == old(root)
      ensures var m := MergeNodes(sha256d, old(hashQueue1.items), old(hashQueue2.items), old(bitQueue1.items[0]),
                                  old(bitQueue2.items[0]), old(bitQueue1.items[1..]),
                                  old(bitQueue2.items[1..]), depth0);
        if m.Failed? then r == Thrown(m.reason)
        else
          && r == Done
          && AsNode() == Node(root, old(merkleHashes) + m.hashes, old(txHashes) + m.txs, old(bits) + m.bits)
          && Queues(hashQueue1.items, bitQueue1.items) == m.q1 && Queues(hashQueue2.items, bitQueue2.items) == m.q2
      decreases depth0, 0
    {
      hide MergeQueues, Decode, MergeNodes;
      MergeNodesStep(sha256d, hashQueue1.items, hashQueue2.items, bitQueue1.items[0], bitQueue2.items[0],
                     bitQueue1.items[1..], bitQueue2.items[1..], depth0);
      var bit1 := bitQueue1.Pop();
      var bit2 := bitQueue2.Pop();
      var hasMatch := bit1 || bit2;
      if depth0 == 0 || !hasMatch {
        if hashQueue1.items[0] != hashQueue2.items[0] {
          return Thrown(HashMismatch);
        }
        merkleHashes := merkleHashes + [hashQueue1.items[0]];
        if hasMatch {
          txHashes := txHashes + [hashQueue1.items[0]];
        }
        bits := bits + [hasMatch];
        var _ := hashQueue1.Pop();
        var _ := hashQueue2.Pop();
        return Done;
      }
      bits := bits + [true];
      var below := depth0 - 1;
      if bit1 && bit2 {
        r := MergeFrom(hashQueue1, hashQueue2, bitQueue1, bitQueue2, below);
        if r.Done? {
          r := MergeFrom(hashQueue1, hashQueue2, bitQueue1, bitQueue2, below);
        }
        return;
      }
      if bit2 {
        hashQueue1.Swap(hashQueue2);
        bitQueue1.Swap(bitQueue2);
      }
      r := CopyDeeper(hashQueue1, hashQueue2, bitQueue1, below);
    }

    /** Only the first tree goes on below this node: copies it, and checks it against the second. */
    method CopyDeeper(hashQueue1: Queue<Bytes>, hashQueue2: Queue<Bytes>, bitQueue1: Queue<bool>, below: nat)
      returns (r: Outcome<TreeError>)
      requires hashQueue1 != hashQueue2
      requires hashQueue1.items != [] && hashQueue2.items != []
      modifies this, hashQueue1, hashQueue2, bitQueue1
      ensures nTxs == old(nTxs) && depth == old(depth) && root == old(root)
      ensures var d := Decode(sha256d, Queues(old(hashQueue1.items), [true] + old(bitQueue1.items)), below + 1);
        if d.Malformed? then r == Thrown(BadData)
        else if d.node.root != old(hashQueue2.items[0]) then r == Thrown(HashMismatch)
        else
          && r == Done
          && merkleHashes == old(merkleHashes) + d.node.hashes && txHashes == old(txHashes) + d.node.txs
          && d.node.bits != [] && d.node.bits[0] && bits == old(bits) + d.node.bits[1..]
          && Queues(hashQueue1.items, bitQueue1.items) == d.rest && hashQueue2.items == old(hashQueue2.items[1..])
    {
      hide Decode;
      DecodeStep(sha256d, Queues(hashQueue1.items, [true] + bitQueue1.items), below + 1);
      assert ([true] + bitQueue1.items)[1..] == bitQueue1.items;
      var leftSubtree := new PartialMerkleTree(sha256d);
      r := leftSubtree.DecodeQueues(hashQueue1, bitQueue1, below);
      if r.Thrown? {
        return;
      }
      Splice(leftSubtree);
      var here: Bytes;
      if hashQueue1.items != [] {
        var rightSubtree := new PartialMerkleTree(sha256d);
        r := rightSubtree.DecodeQueues(hashQueue1, bitQueue1, below);
        if r.Thrown? {
          return;
        }
        here := sha256d(leftSubtree.root + rightSubtree.root);
        Splice(rightSubtree);
      } else {
        here := sha256d(leftSubtree.root + leftSubtree.root);
      }
      if here != hashQueue2.items[0] {
        return Thrown(HashMismatch);
      }
      var _ := hashQueue2.Pop();
    }

    method Splice(subtree: PartialMerkleTree)
      requires subtree != this
      modifies this
      ensures nTxs == old(nTxs) && depth == old(depth) && root == old(root)
      ensures merkleHashes == old(merkleHashes) + subtree.merkleHashes
      ensures txHashes == old(txHashes) + subtree.txHashes
      ensures bits == old(bits) + subtree.bits
    {
      merkleHashes := merkleHashes + subtree.merkleHashes;
      txHashes := txHashes + subtree.txHashes;
      bits := bits + subtree.bits;
    }

    // ----- Indices

    method UpdateTxIndices()
      modifies `txIndices
      ensures Indexed()
    {
      var txHashesSet := set x | x in txHashes;
      txIndices := [];
      for i := 0 to |merkleHashes|
        invariant Indexes(txIndices, merkleHashes[..i], txHashes)
      {
        ghost var before := txIndices;
        if merkleHashes[i] in txHashesSet {
          txIndices := txIndices + [i];
        }
        assert forall k: nat :: k <= i ==> (k in txIndices <==> k in before || (k == i && merkleHashes[i] in txHashes));
      }
      assert merkleHashes[..|merkleHashes|] == merkleHashes;
    }
  }

  /** What a tree of these leaves is: its root is the block's Merkle root, it reports the matched leaves
      in order, each with a proof, and m matches need at most m * (depth + 1) hashes. */
  lemma HoldsMeans(t: PartialMerkleTree, leaves: seq<MerkleLeaf>)
    requires t.Holds(leaves)
    ensures t.root == LevelRoot(t.sha256d, HashesOf(leaves))
    ensures t.txHashes == MatchedHashes(leaves) && t.Authenticated()
    ensures t.Valid() && t.Conforming()
    ensures if t.txHashes == [] then |t.merkleHashes| == 1 else |t.merkleHashes| <= |t.txHashes| * (t.depth + 1)
  {
    BuildRootOfHashes(t.sha256d, leaves, t.depth);
    TopDownRootIsLevelRoot(t.sha256d, HashesOf(leaves));
    BuildReportsMatches(t.sha256d, leaves, t.depth);
    BuildIsSelfDecoding(t.sha256d, leaves, t.depth);
    DecodedIsAuthentic(t.sha256d, Stream(t.AsNode()), t.depth);
    BuildConforms(t.sha256d, leaves, t.depth);
    BuildShape(t.sha256d, leaves, t.depth);
    BuildSize(t.sha256d, leaves, t.depth);
  }

  /** The part of a block message that carries a tree. */
  class MerkleBlock {
    var nTxs: nat
    var hashes: seq<Bytes>
    var flags: Bytes
    var merkleRoot: Bytes

    constructor (merkleTree: PartialMerkleTree)
      ensures nTxs == merkleTree.nTxs && hashes == merkleTree.merkleHashes
      ensures Carries(flags, merkleTree.bits) && merkleRoot == Reverse(merkleTree.root)
    {
      merkleRoot := Reverse(merkleTree.root);
      nTxs := merkleTree.nTxs;
      hashes := merkleTree.merkleHashes;
      flags := [];
      new;
      flags := merkleTree.GetFlags();
    }

    /** The message says what a tree over these leaves says. */
    ghost predicate Describes(h: HashFn, leaves: seq<MerkleLeaf>)
      reads this
    {
      leaves != [] && nTxs == |leaves| &&
      var n := Build(h, leaves, DepthOf(nTxs));
      hashes == n.hashes && Carries(flags, n.bits) && merkleRoot == Reverse(n.root)
    }

    /** The tree comes back as it was built, although the bits were padded to whole bytes. */
    method MerkleTree(sha256d: HashFn) returns (r: Outcome<TreeError>, tree: PartialMerkleTree)
      ensures fresh(tree) && tree.sha256d == sha256d
      ensures r.Done? ==>
        tree.Valid() && tree.Authenticated() && (merkleRoot != [] ==> merkleRoot == Reverse(tree.root))
      ensures forall leaves | Describes(sha256d, leaves) :: r == Done && tree.Holds(leaves)
    {
      hide Build, Decode, DepthOf;
      tree := new PartialMerkleTree(sha256d);
      forall leaves | Describes(sha256d, leaves)
        ensures DecodesTo(sha256d, Queues(hashes, Unpack(flags)), leaves)
      {
        PaddingIsIgnored(sha256d, leaves, DepthOf(|leaves|), flags);
      }
      r := tree.SetCompressed(nTxs, hashes, flags, merkleRoot);
    }
  }

  ghost predicate DecodesTo(h: HashFn, q: Queues, leaves: seq<MerkleLeaf>)
    requires leaves != []
  {
    var depth := DepthOf(|leaves|);
    var d := Decode(h, q, depth);
    d.Decoded? && d.node == Build(h, leaves, depth)
  }

  /** The zero bits that fill the last flag byte are left unread. */
  lemma PaddingIsIgnored(h: HashFn, leaves: seq<MerkleLeaf>, depth: nat, flags: Bytes)
    requires Fits(|leaves|, depth) && Carries(flags, Build(h, leaves, depth).bits)
    ensures var n := Build(h, leaves, depth);
      var d := Decode(h, Queues(n.hashes, Unpack(flags)), depth);
      d.Decoded? && d.node == n && d.rest.hashes == [] && |d.rest.bits| < 8 && true !in d.rest.bits
  {
    var n := Build(h, leaves, depth);
    var rest := Queues([], NoBits(8 * |flags| - |n.bits|));
    DecodeBuild(h, leaves, depth, rest);
    BuildShape(h, leaves, depth);
    assert Append(Stream(n), rest) == Queues(n.hashes, Unpack(flags));
  }

  /** ceiling(log2(n)), by shifting n - 1 down to nothing. */
  method ComputeDepth(nTxs: nat) returns (depth: nat)
    requires nTxs > 0
    ensures depth == DepthOf(nTxs)
  {
    depth := 0;
    var n := nTxs - 1;
    while n > 0
      invariant n >= 0 && depth + DepthOf(n + 1) == DepthOf(nTxs)
    {
      depth := depth + 1;
      n := n / 2;
    }
  }

  method UnpackFlags(flags: Bytes) returns (bitQueue: Queue<bool>)
    ensures fresh(bitQueue) && bitQueue.items == Unpack(flags)
  {
    hide Pow2;
    bitQueue := new Queue([]);
    for j := 0 to |flags|
      invariant fresh(bitQueue) && bitQueue.items == Unpack(flags[..j])
    {
      for i := 0 to 8
        invariant fresh(bitQueue) && bitQueue.items == Unpack(flags[..j]) + BitsOf(flags[j], 8)[..i]
      {
        BitsOfAt(flags[j], 8, i);
        bitQueue.Push((flags[j] / Pow2(i)) % 2 == 1);
      }
      UnpackAppend(flags[..j], flags[j]);
      assert flags[..j] + [flags[j]] == flags[..j + 1];
      assert BitsOf(flags[j], 8)[..8] == BitsOf(flags[j], 8);
    }
    assert flags[..|flags|] == flags;
  }
}
