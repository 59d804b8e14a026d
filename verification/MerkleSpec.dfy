/** Partial Merkle trees on values: what building, decoding and merging compute. */
module MerkleSpec {
  import opened Bytes

  /** A leaf of a block: a transaction hash, and whether the transaction is wanted. */
  datatype MerkleLeaf = MerkleLeaf(hash: Bytes, matched: bool)

  /** The four things the program keeps of a subtree. */
  datatype Node = Node(root: Bytes, hashes: seq<Bytes>, txs: seq<Bytes>, bits: seq<bool>)

  /** The unread part of a compressed tree. */
  datatype Queues = Queues(hashes: seq<Bytes>, bits: seq<bool>)

  /** Why a tree operation throws. `Undefined` stands for reading the front of an empty queue, which
      C++ leaves undefined. */
  datatype TreeError = NoTransactions | NoLeaves | BadData | WrongRoot
                     | CountDiffers | DepthDiffers | RootDiffers | HashMismatch | Undefined

  // ----- Combining subtrees

  function Join(h: HashFn, l: Node, r: Node): Node {
    Node(h(l.root + r.root), l.hashes + r.hashes, l.txs + r.txs, [true] + l.bits + r.bits)
  }

  function Lone(h: HashFn, l: Node): Node {
    Node(h(l.root + l.root), l.hashes, l.txs, [true] + l.bits)
  }

  function LeafNode(hash: Bytes, bit: bool): Node {
    Node(hash, [hash], if bit then [hash] else [], [bit])
  }

  function PruneUnmatched(n: Node): Node {
    if n.txs == [] then LeafNode(n.root, false) else n
  }

  // ----- Building from leaves

  ghost predicate Fits(n: nat, depth: nat) {
    0 < n <= Pow2(depth)
  }

  function LeftCount(n: nat, depth: nat): (k: nat)
    requires Fits(n, depth) && depth > 0
    ensures Fits(k, depth - 1) && k <= n
    ensures k < n ==> k == Pow2(depth - 1) && Fits(n - k, depth - 1)
  {
    if Pow2(depth - 1) < n then Pow2(depth - 1) else n
  }

  function Build(h: HashFn, leaves: seq<MerkleLeaf>, depth: nat): Node
    requires Fits(|leaves|, depth)
    decreases depth
  {
    if depth == 0 then
      LeafNode(leaves[0].hash, leaves[0].matched)
    else
      var k := LeftCount(|leaves|, depth);
      var l := Build(h, leaves[..k], depth - 1);
      if k < |leaves| then PruneUnmatched(Join(h, l, Build(h, leaves[k..], depth - 1)))
      else PruneUnmatched(Lone(h, l))
  }

  // ----- Decoding a compressed tree

  datatype Decoded = Malformed | Decoded(node: Node, rest: Queues)

  function Decode(h: HashFn, q: Queues, depth: nat): Decoded
    decreases depth
  {
    if q.hashes == [] || q.bits == [] then
      Malformed
    else if depth == 0 || !q.bits[0] then
      Decoded(LeafNode(q.hashes[0], q.bits[0]), Queues(q.hashes[1..], q.bits[1..]))
    else
      match Decode(h, Queues(q.hashes, q.bits[1..]), depth - 1)
      case Malformed => Malformed
      case Decoded(l, q') =>
        if q'.hashes == [] then Decoded(Lone(h, l), q')
        else
          match Decode(h, q', depth - 1)
          case Malformed => Malformed
          case Decoded(r, q'') => Decoded(Join(h, l, r), q'')
  }

  // ----- Merging two compressed trees

  datatype Merged = Failed(reason: TreeError)
                  | Merged(hashes: seq<Bytes>, txs: seq<Bytes>, bits: seq<bool>, q1: Queues, q2: Queues)

  function MergeQueues(h: HashFn, a: Queues, b: Queues, depth: nat): Merged
    decreases depth
  {
    var q1 := if a.hashes == [] then b else a;
    var q2 := if a.hashes == [] then a else b;
    if q2.hashes == [] then
      if q1.hashes == [] then Merged([], [], [], q1, q2)
      else
        match Decode(h, q1, depth)
        case Malformed => Failed(BadData)
        case Decoded(n, q) => Merged(n.hashes, n.txs, n.bits, q, q2)
    else if q1.bits == [] || q2.bits == [] then
      Failed(Undefined)
    else
      MergeNodes(h, q1.hashes, q2.hashes, q1.bits[0], q2.bits[0], q1.bits[1..], q2.bits[1..], depth)
  }

  /** Merging when both trees have a node here; the bits of the two nodes are already read. */
  function MergeNodes(h: HashFn, h1: seq<Bytes>, h2: seq<Bytes>, bit1: bool, bit2: bool,
                      b1: seq<bool>, b2: seq<bool>, depth: nat): Merged
    requires h1 != [] && h2 != []
    decreases depth, 0
  {
    if depth == 0 || !(bit1 || bit2) then
      if h1[0] != h2[0] then Failed(HashMismatch)
      else
        var n := LeafNode(h1[0], bit1 || bit2);
        Merged(n.hashes, n.txs, n.bits, Queues(h1[1..], b1), Queues(h2[1..], b2))
    else if bit1 && bit2 then
      match MergeQueues(h, Queues(h1, b1), Queues(h2, b2), depth - 1)
      case Failed(e) => Failed(e)
      case Merged(lh, lt, lb, q1, q2) =>
        (match MergeQueues(h, q1, q2, depth - 1)
         case Failed(e) => Failed(e)
         case Merged(rh, rt, rb, q1', q2') => Merged(lh + rh, lt + rt, [true] + lb + rb, q1', q2'))
    else
      // only one tree goes on below; the program swaps the queues if it is the second
      var deep := if bit2 then Queues(h2, b2) else Queues(h1, b1);
      var pruned := if bit2 then Queues(h1, b1) else Queues(h2, b2);
      match Decode(h, Queues(deep.hashes, [true] + deep.bits), depth)
      case Malformed => Failed(BadData)
      case Decoded(n, q) =>
        if n.root != pruned.hashes[0] then Failed(HashMismatch)
        else Merged(n.hashes, n.txs, n.bits, q, Queues(pruned.hashes[1..], pruned.bits))
  }
}
