/** Merging two partial trees: what holds for any two trees the decoder accepts, for trees of the
    format's own shape, and for trees built over the same leaves. */
module MerkleMerge {
  import opened Bytes
  import opened MerkleSpec
  import opened MerkleCodec

  function Elements(s: seq<Bytes>): set<Bytes> {
    set x | x in s
  }

  lemma ElementsConcat(s: seq<Bytes>, t: seq<Bytes>)
    ensures Elements(s + t) == Elements(s) + Elements(t)
  {
  }

  /** The two queues come back in either order. */
  ghost predicate SameQueues(q1: Queues, q2: Queues, a: Queues, b: Queues) {
    (q1 == a && q2 == b) || (q1 == b && q2 == a)
  }

  // ----- One queue during a merge: either it has run out, or a subtree can be decoded from it

  ghost predicate Ready(h: HashFn, q: Queues, depth: nat) {
    q.hashes == [] || Decode(h, q, depth).Decoded?
  }

  ghost function Rest(h: HashFn, q: Queues, depth: nat): Queues
    requires Ready(h, q, depth)
  {
    if q.hashes == [] then q else Decode(h, q, depth).rest
  }

  ghost function Txs(h: HashFn, q: Queues, depth: nat): set<Bytes>
    requires Ready(h, q, depth)
  {
    if q.hashes == [] then {} else Elements(Decode(h, q, depth).node.txs)
  }

  function Root(h: HashFn, q: Queues, depth: nat): Bytes
    requires Decode(h, q, depth).Decoded?
  {
    Decode(h, q, depth).node.root
  }

  ghost predicate IsInner(q: Queues, depth: nat) {
    depth > 0 && q.bits != [] && q.bits[0]
  }

  function Below(q: Queues): Queues
    requires q.bits != []
  {
    Queues(q.hashes, q.bits[1..])
  }

  /** A node with a set bit, seen as its left subtree l followed by the rest r, which starts with its
      right subtree unless it has run out of hashes. */
  lemma InnerParts(h: HashFn, q: Queues, depth: nat) returns (l: Node, r: Queues)
    requires IsInner(q, depth) && Decode(h, q, depth).Decoded?
    ensures Decode(h, Below(q), depth - 1) == Decoded(l, r)
    ensures Ready(h, r, depth - 1)
    ensures Rest(h, q, depth) == Rest(h, r, depth - 1)
    ensures Txs(h, q, depth) == Elements(l.txs) + Txs(h, r, depth - 1)
    ensures Root(h, q, depth) == h(l.root + if r.hashes == [] then l.root else Root(h, r, depth - 1))
  {
    var d := Decode(h, Below(q), depth - 1);
    l, r := d.node, d.rest;
  }

  /** A subtree that ends here: one hash and one bit. */
  lemma LeafParts(h: HashFn, q: Queues, depth: nat)
    requires !IsInner(q, depth) && Decode(h, q, depth).Decoded?
    ensures Rest(h, q, depth) == Queues(q.hashes[1..], q.bits[1..])
    ensures Txs(h, q, depth) == if q.bits[0] then {q.hashes[0]} else {}
    ensures Root(h, q, depth) == q.hashes[0]
  {
  }

  lemma DecodedHasData(h: HashFn, q: Queues, depth: nat)
    requires Decode(h, q, depth).Decoded?
    ensures q.hashes != [] && q.bits != []
  {
  }

  /** One step of a merge, with both trees present. */
  lemma MergeStep(h: HashFn, a: Queues, b: Queues, depth: nat)
    requires Decode(h, a, depth).Decoded? && Decode(h, b, depth).Decoded?
    ensures var m := MergeQueues(h, a, b, depth);
      if IsInner(a, depth) && IsInner(b, depth) then
        match MergeQueues(h, Below(a), Below(b), depth - 1)
        case Failed(e) => m == Failed(e)
        case Merged(lh, lt, lb, q1, q2) =>
          (match MergeQueues(h, q1, q2, depth - 1)
           case Failed(e) => m == Failed(e)
           case Merged(rh, rt, rb, q1', q2') => m == Merged(lh + rh, lt + rt, [true] + lb + rb, q1', q2'))
      else if IsInner(a, depth) || IsInner(b, depth) then
        var deep := if IsInner(a, depth) then a else b;
        var flat := if IsInner(a, depth) then b else a;
        var d := Decode(h, deep, depth);
        m == if d.node.root != flat.hashes[0] then Failed(HashMismatch)
             else Merged(d.node.hashes, d.node.txs, d.node.bits, d.rest, Queues(flat.hashes[1..], flat.bits[1..]))
      else
        var n := LeafNode(a.hashes[0], a.bits[0] || b.bits[0]);
        m == if a.hashes[0] != b.hashes[0] then Failed(HashMismatch)
             else Merged(n.hashes, n.txs, n.bits,
                         Queues(a.hashes[1..], a.bits[1..]), Queues(b.hashes[1..], b.bits[1..]))
  {
    assert IsInner(a, depth) ==> [true] + a.bits[1..] == a.bits;
    assert IsInner(b, depth) ==> [true] + b.bits[1..] == b.bits;
  }

  /** Once a tree has run out, the other one is copied. */
  lemma MergeExhausted(h: HashFn, a: Queues, b: Queues, depth: nat)
    requires Ready(h, a, depth) && Ready(h, b, depth)
    ensures a.hashes == [] || b.hashes == [] ==> MergeQueues(h, a, b, depth).Merged?
  {
  }

  // ----- Any two trees the decoder accepts

  ghost predicate MergedSafely(h: HashFn, a: Queues, b: Queues, depth: nat, m: Merged)
    requires Ready(h, a, depth) && Ready(h, b, depth)
  {
    match m
    case Failed(e) => e == HashMismatch
    case Merged(_, txs, _, q1, q2) =>
      && SameQueues(q1, q2, Rest(h, a, depth), Rest(h, b, depth))
      && Elements(txs) == Txs(h, a, depth) + Txs(h, b, depth)
  }

  /** The only exception is the mismatch of two hashes, no empty queue is read, both trees are read
      to their ends, and exactly the transactions of both are reported. */
  lemma {:induction false} MergeSafe(h: HashFn, a: Queues, b: Queues, depth: nat)
    requires Ready(h, a, depth) && Ready(h, b, depth)
    ensures MergedSafely(h, a, b, depth, MergeQueues(h, a, b, depth))
    decreases depth, 1
  {
    if a.hashes != [] && b.hashes != [] {
      MergeNodesSafe(h, a, b, depth);
    }
  }

  lemma {:induction false} MergeNodesSafe(h: HashFn, a: Queues, b: Queues, depth: nat)
    requires Decode(h, a, depth).Decoded? && Decode(h, b, depth).Decoded?
    ensures MergedSafely(h, a, b, depth, MergeQueues(h, a, b, depth))
    decreases depth, 0
  {
    hide Decode, MergeQueues;
    MergeStep(h, a, b, depth);
    DecodedHasData(h, a, depth);
    DecodedHasData(h, b, depth);
    if IsInner(a, depth) && IsInner(b, depth) {
      var la, ra := InnerParts(h, a, depth);
      var lb, rb := InnerParts(h, b, depth);
      DecodedHasData(h, Below(a), depth - 1);
      DecodedHasData(h, Below(b), depth - 1);
      MergeSafe(h, Below(a), Below(b), depth - 1);
      var left := MergeQueues(h, Below(a), Below(b), depth - 1);
      if left.Merged? {
        MergeSafe(h, left.q1, left.q2, depth - 1);
        var right := MergeQueues(h, left.q1, left.q2, depth - 1);
        if right.Merged? {
          ElementsConcat(left.txs, right.txs);
        }
      }
    } else {
      if !IsInner(a, depth) { LeafParts(h, a, depth); }
      if !IsInner(b, depth) { LeafParts(h, b, depth); }
    }
  }

  ghost predicate AllHashes(hs: seq<Bytes>) {
    forall x :: x in hs ==> |x| == 32
  }

  /** The strings that are hashed while a subtree is decoded. */
  ghost function Hashed(h: HashFn, q: Queues, depth: nat): set<Bytes>
    decreases depth
  {
    if Decode(h, q, depth).Malformed? || !IsInner(q, depth) then {}
    else
      var l := Decode(h, Below(q), depth - 1);
      var left := Hashed(h, Below(q), depth - 1);
      if l.rest.hashes == [] then left + {l.node.root + l.node.root}
      else left + Hashed(h, l.rest, depth - 1) + {l.node.root + Root(h, l.rest, depth - 1)}
  }

  /** If two trees have the same root, their merge succeeds, or the mismatch it found lies above a
      collision: two different strings that were hashed in decoding the trees and have one hash. */
  lemma {:induction false} MergeFailureIsCollision(h: HashFn, a: Queues, b: Queues, depth: nat)
    returns (x: Bytes, y: Bytes)
    requires Decode(h, a, depth).Decoded? && Decode(h, b, depth).Decoded?
    requires AllHashes(a.hashes) && AllHashes(b.hashes)
    requires Root(h, a, depth) == Root(h, b, depth)
    requires MergeQueues(h, a, b, depth).Failed?
    ensures Collision(h, x, y)
    ensures {x, y} <= Hashed(h, a, depth) + Hashed(h, b, depth)
    decreases depth
  {
    hide Decode, MergeQueues, Hashed;
    MergeStep(h, a, b, depth);
    DecodedHasData(h, a, depth);
    DecodedHasData(h, b, depth);
    if IsInner(a, depth) && IsInner(b, depth) {
      var la, ra := InnerParts(h, a, depth);
      var lb, rb := InnerParts(h, b, depth);
      HashedInner(h, a, depth, la, ra);
      HashedInner(h, b, depth, lb, rb);
      RootIsHash(h, Below(a), depth - 1);
      RootIsHash(h, Below(b), depth - 1);
      x := la.root + if ra.hashes == [] then la.root else Root(h, ra, depth - 1);
      y := lb.root + if rb.hashes == [] then lb.root else Root(h, rb, depth - 1);
      if x == y {
        assert la.root == x[..32] == y[..32] == lb.root;
        var left := MergeQueues(h, Below(a), Below(b), depth - 1);
        if left.Failed? {
          x, y := MergeFailureIsCollision(h, Below(a), Below(b), depth - 1);
        } else {
          assert x[32..] == y[32..];
          MergeSafe(h, Below(a), Below(b), depth - 1);
          MergeExhausted(h, left.q1, left.q2, depth - 1);
          x, y := MergeFailureIsCollision(h, left.q1, left.q2, depth - 1);
        }
      }
    } else {
      if !IsInner(a, depth) { LeafParts(h, a, depth); }
      if !IsInner(b, depth) { LeafParts(h, b, depth); }
      assert false;
    }
  }

  lemma HashedInner(h: HashFn, q: Queues, depth: nat, l: Node, r: Queues)
    requires IsInner(q, depth) && Decode(h, q, depth).Decoded?
    requires Decode(h, Below(q), depth - 1) == Decoded(l, r)
    ensures var right := if r.hashes == [] then {} else Hashed(h, r, depth - 1);
      Hashed(h, q, depth) == Hashed(h, Below(q), depth - 1) + right
        + {l.root + if r.hashes == [] then l.root else Root(h, r, depth - 1)}
  {
  }

  lemma RootIsHash(h: HashFn, q: Queues, depth: nat)
    requires Decode(h, q, depth).Decoded? && AllHashes(q.hashes)
    ensures |Root(h, q, depth)| == 32 && AllHashes(Decode(h, q, depth).rest.hashes)
  {
    hide Decode;
    DecodePrefix(h, q, depth);
    DecodedHasData(h, q, depth);
    var d := Decode(h, q, depth);
    if IsInner(q, depth) {
      var l, r := InnerParts(h, q, depth);
    } else {
      LeafParts(h, q, depth);
      assert q.hashes[0] in q.hashes;
    }
    forall x | x in d.rest.hashes ensures |x| == 32 {
      assert x in q.hashes;
    }
  }

  // ----- Two trees of the format's own shape

  /** Subtrees over the same n leaves lie in front, complete or at the end of both queues. */
  ghost predicate ConformingPair(h: HashFn, a: Queues, b: Queues, n: nat, depth: nat)
    requires Fits(n, depth)
  {
    var da := ReferenceDecode(h, a, n, depth);
    var db := ReferenceDecode(h, b, n, depth);
    da.Decoded? && db.Decoded? && (n == Pow2(depth) || (da.rest.hashes == [] && db.rest.hashes == []))
  }

  /** The merge either finds a mismatch or makes a third such tree, with the root of both. */
  ghost predicate MergesConforming(h: HashFn, a: Queues, b: Queues, n: nat, depth: nat)
    requires Fits(n, depth) && ConformingPair(h, a, b, n, depth)
  {
    var da := ReferenceDecode(h, a, n, depth);
    var db := ReferenceDecode(h, b, n, depth);
    match MergeQueues(h, a, b, depth)
    case Failed(e) => e == HashMismatch
    case Merged(hashes, txs, bits, q1, q2) =>
      && da.node.root == db.node.root
      && hashes != [] && Conforms(h, Node(da.node.root, hashes, txs, bits), n, depth)
      && SameQueues(q1, q2, da.rest, db.rest)
  }

  /** Trees that the reference parser accepts are closed under merging: the result is accepted again,
      with the common root. */
  lemma {:induction false} MergeConforming(h: HashFn, a: Queues, b: Queues, n: nat, depth: nat)
    requires Fits(n, depth)
    requires ConformingPair(h, a, b, n, depth)
    ensures MergesConforming(h, a, b, n, depth)
    decreases depth
  {
    var da := ReferenceDecode(h, a, n, depth);
    var db := ReferenceDecode(h, b, n, depth);
    DecodeRefinesReference(h, a, n, depth);
    DecodeRefinesReference(h, b, n, depth);
    MergeStep(h, a, b, depth);
    if IsInner(a, depth) && IsInner(b, depth) {
      MergeInnerConforming(h, a, b, n, depth);
    } else if IsInner(a, depth) {
      LeafParts(h, b, depth);
      ReferenceDecodeConforms(h, a, n, depth);
    } else if IsInner(b, depth) {
      LeafParts(h, a, depth);
      ReferenceDecodeConforms(h, b, n, depth);
    } else {
      LeafParts(h, a, depth);
      LeafParts(h, b, depth);
      ConformingLeaf(h, a.hashes[0], a.bits[0] || b.bits[0], n, depth);
    }
  }

  lemma ReferenceParts(h: HashFn, q: Queues, n: nat, depth: nat) returns (l: Decoded, r: Node)
    requires Fits(n, depth) && IsInner(q, depth) && ReferenceDecode(h, q, n, depth).Decoded?
    ensures l == ReferenceDecode(h, Below(q), LeftCount(n, depth), depth - 1) && l.Decoded?
    ensures var d := ReferenceDecode(h, q, n, depth);
      var k := LeftCount(n, depth);
      if k == n then d == Decoded(Lone(h, l.node), l.rest)
      else
        && ReferenceDecode(h, l.rest, n - k, depth - 1) == Decoded(r, d.rest)
        && d.node == Join(h, l.node, r) && l.rest.hashes != []
  {
    var k := LeftCount(n, depth);
    l := ReferenceDecode(h, Below(q), k, depth - 1);
    r := if k == n then l.node else ReferenceDecode(h, l.rest, n - k, depth - 1).node;
  }

  lemma {:induction false} MergeInnerConforming(h: HashFn, a: Queues, b: Queues, n: nat, depth: nat)
    requires Fits(n, depth) && IsInner(a, depth) && IsInner(b, depth)
    requires ConformingPair(h, a, b, n, depth)
    ensures MergesConforming(h, a, b, n, depth)
    decreases depth, 0
  {
    hide Decode, MergeQueues, Conforms, ReferenceDecode;
    var k := LeftCount(n, depth);
    var la, ra := ReferenceParts(h, a, n, depth);
    var lb, rb := ReferenceParts(h, b, n, depth);
    DecodeRefinesReference(h, a, n, depth);
    DecodeRefinesReference(h, b, n, depth);
    MergeStep(h, a, b, depth);
    MergeConforming(h, Below(a), Below(b), k, depth - 1);
    var left := MergeQueues(h, Below(a), Below(b), depth - 1);
    if left.Merged? {
      var l := Node(la.node.root, left.hashes, left.txs, left.bits);
      var right := MergeQueues(h, left.q1, left.q2, depth - 1);
      if k < n {
        MergeConforming(h, left.q1, left.q2, n - k, depth - 1);
        if right.Merged? {
          ConformingJoin(h, l, Node(ra.root, right.hashes, right.txs, right.bits), n, depth);
        }
      } else {
        MergeNothing(h, left.q1, left.q2, depth - 1);
        assert left.hashes + [] == left.hashes && left.txs + [] == left.txs
          && [true] + left.bits + [] == [true] + left.bits;
        ConformingLone(h, l, n, depth);
      }
    }
  }

  lemma MergeNothing(h: HashFn, a: Queues, b: Queues, depth: nat)
    requires a.hashes == [] && b.hashes == []
    ensures MergeQueues(h, a, b, depth) == Merged([], [], [], b, a)
  {
  }

  // ----- Two trees built over the same leaves

  /** The same leaves, wanted if either tree wants them. */
  function United(a: seq<MerkleLeaf>, b: seq<MerkleLeaf>): (u: seq<MerkleLeaf>)
    requires HashesOf(a) == HashesOf(b)
    ensures |u| == |a| == |b|
    ensures forall i :: 0 <= i < |u| ==> u[i] == MerkleLeaf(a[i].hash, a[i].matched || b[i].matched)
    ensures HashesOf(u) == HashesOf(a)
  {
    assert |a| == |HashesOf(a)| == |b|;
    seq(|a|, i requires 0 <= i < |a| => MerkleLeaf(a[i].hash, a[i].matched || b[i].matched))
  }

  lemma UnitedParts(a: seq<MerkleLeaf>, b: seq<MerkleLeaf>, k: nat)
    requires HashesOf(a) == HashesOf(b) && k <= |a|
    ensures k <= |b| && HashesOf(a[..k]) == HashesOf(b[..k]) && HashesOf(a[k..]) == HashesOf(b[k..])
    ensures United(a, b)[..k] == United(a[..k], b[..k]) && United(a, b)[k..] == United(a[k..], b[k..])
  {
    assert |a| == |HashesOf(a)| == |b|;
    assert forall i :: 0 <= i < |a| ==> a[i].hash == HashesOf(a)[i] == HashesOf(b)[i] == b[i].hash;
  }

  lemma UnitedSymmetric(a: seq<MerkleLeaf>, b: seq<MerkleLeaf>)
    requires HashesOf(a) == HashesOf(b)
    ensures United(a, b) == United(b, a)
  {
    assert forall i :: 0 <= i < |United(a, b)| ==> a[i].hash == HashesOf(a)[i] == HashesOf(b)[i] == b[i].hash;
  }

  lemma {:induction false} NoMatches(leaves: seq<MerkleLeaf>)
    ensures MatchedHashes(leaves) == [] <==> forall i :: 0 <= i < |leaves| ==> !leaves[i].matched
  {
    if leaves != [] {
      NoMatches(leaves[1..]);
      assert forall i :: 1 <= i < |leaves| ==> leaves[i] == leaves[1..][i - 1];
    }
  }

  /** A tree without matches adds nothing. */
  lemma UnitedWithUnmatched(a: seq<MerkleLeaf>, b: seq<MerkleLeaf>)
    requires HashesOf(a) == HashesOf(b) && MatchedHashes(b) == []
    ensures United(a, b) == a
  {
    NoMatches(b);
  }

  ghost predicate MergesTo(h: HashFn, a: Queues, b: Queues, depth: nat, n: Node, ra: Queues, rb: Queues) {
    match MergeQueues(h, a, b, depth)
    case Failed(_) => false
    case Merged(hashes, txs, bits, q1, q2) =>
      hashes == n.hashes && txs == n.txs && bits == n.bits && SameQueues(q1, q2, ra, rb)
  }

  /** Merging never throws here, and gives the tree of the united matches. */
  lemma {:induction false} MergeBuilt(h: HashFn, a: seq<MerkleLeaf>, b: seq<MerkleLeaf>, depth: nat,
      ra: Queues, rb: Queues)
    requires Fits(|a|, depth) && HashesOf(a) == HashesOf(b)
    requires |a| == Pow2(depth) || (ra.hashes == [] && rb.hashes == [])
    ensures |a| == |b|
    ensures MergesTo(h, Append(Stream(Build(h, a, depth)), ra), Append(Stream(Build(h, b, depth)), rb), depth,
                     Build(h, United(a, b), depth), ra, rb)
    decreases depth
  {
    hide Decode, MergeQueues;
    assert |a| == |HashesOf(a)| == |b|;
    var na, nb := Build(h, a, depth), Build(h, b, depth);
    var qa, qb := Append(Stream(na), ra), Append(Stream(nb), rb);
    BuiltFront(h, a, depth, ra);
    BuiltFront(h, b, depth, rb);
    BuildRootOfHashes(h, a, depth);
    BuildRootOfHashes(h, b, depth);
    MergeStep(h, qa, qb, depth);
    if IsInner(qa, depth) && IsInner(qb, depth) {
      MergeInnerBuilt(h, a, b, depth, ra, rb);
    } else if IsInner(qa, depth) {
      UnitedWithUnmatched(a, b);
    } else if IsInner(qb, depth) {
      UnitedSymmetric(a, b);
      UnitedWithUnmatched(b, a);
    } else if depth > 0 {
      UnitedWithUnmatched(a, b);
    }
  }

  /** What a merge sees in front of a queue that starts with a built tree. */
  lemma BuiltFront(h: HashFn, leaves: seq<MerkleLeaf>, depth: nat, rest: Queues)
    requires Fits(|leaves|, depth)
    requires |leaves| == Pow2(depth) || rest.hashes == []
    ensures var n := Build(h, leaves, depth);
      var q := Append(Stream(n), rest);
      && Decode(h, q, depth) == Decoded(n, rest)
      && q.hashes != [] && q.bits != [] && n.bits != []
      && (depth > 0 ==> (IsInner(q, depth) <==> MatchedHashes(leaves) != []))
      && (!IsInner(q, depth) ==>
          && n == LeafNode(n.root, n.bits[0])
          && q.hashes[0] == n.root && q.bits[0] == n.bits[0]
          && q.hashes[1..] == rest.hashes && q.bits[1..] == rest.bits)
  {
    DecodeBuild(h, leaves, depth, rest);
    BuildShape(h, leaves, depth);
    BuildReportsMatches(h, leaves, depth);
  }

  lemma {:induction false} MergeInnerBuilt(h: HashFn, a: seq<MerkleLeaf>, b: seq<MerkleLeaf>, depth: nat,
      ra: Queues, rb: Queues)
    requires depth > 0
    requires Fits(|a|, depth) && HashesOf(a) == HashesOf(b) && |a| == |b|
    requires |a| == Pow2(depth) || (ra.hashes == [] && rb.hashes == [])
    requires MatchedHashes(a) != [] && MatchedHashes(b) != []
    ensures MergesTo(h, Append(Stream(Build(h, a, depth)), ra), Append(Stream(Build(h, b, depth)), rb), depth,
                     Build(h, United(a, b), depth), ra, rb)
    decreases depth, 0
  {
    hide Decode, MergeQueues, Append, Build, Join, Lone, MatchedHashes, LeftCount, MergesTo, IsInner, Below;
    var k := LeftCount(|a|, depth);
    BuiltFront(h, a, depth, ra);
    BuiltFront(h, b, depth, rb);
    UnitedParts(a, b, k);
    NoMatches(a);
    NoMatches(United(a, b));
    var qa, qb := Append(Stream(Build(h, a, depth)), ra), Append(Stream(Build(h, b, depth)), rb);
    var sa := BuiltBelow(h, a, depth, ra);
    var sb := BuiltBelow(h, b, depth, rb);
    var u := BuiltBelow(h, United(a, b), depth, Queues([], []));
    MergeBuilt(h, a[..k], b[..k], depth - 1, sa, sb);
    var l := Build(h, United(a[..k], b[..k]), depth - 1);
    if k < |a| {
      MergeBuilt(h, a[k..], b[k..], depth - 1, ra, rb);
      UnitedSymmetric(a[k..], b[k..]);
      MergeBuilt(h, b[k..], a[k..], depth - 1, rb, ra);
      MergeBoth(h, qa, qb, depth, l, Build(h, United(a[k..], b[k..]), depth - 1), sa, sb, ra, rb);
    } else {
      MergeLeftOnly(h, qa, qb, depth, l, ra, rb);
    }
  }

  /** Left subtrees that merge to l, and right ones that merge to r, in whichever order they come. */
  lemma MergeBoth(h: HashFn, a: Queues, b: Queues, depth: nat, l: Node, r: Node,
                  sa: Queues, sb: Queues, ra: Queues, rb: Queues)
    requires Decode(h, a, depth).Decoded? && Decode(h, b, depth).Decoded? && IsInner(a, depth) && IsInner(b, depth)
    requires MergesTo(h, Below(a), Below(b), depth - 1, l, sa, sb)
    requires MergesTo(h, sa, sb, depth - 1, r, ra, rb) && MergesTo(h, sb, sa, depth - 1, r, rb, ra)
    ensures MergesTo(h, a, b, depth, Join(h, l, r), ra, rb)
  {
    hide Decode, MergeQueues;
    MergeStep(h, a, b, depth);
  }

  lemma MergeLeftOnly(h: HashFn, a: Queues, b: Queues, depth: nat, l: Node, ra: Queues, rb: Queues)
    requires Decode(h, a, depth).Decoded? && Decode(h, b, depth).Decoded? && IsInner(a, depth) && IsInner(b, depth)
    requires MergesTo(h, Below(a), Below(b), depth - 1, l, ra, rb) && ra.hashes == [] && rb.hashes == []
    ensures MergesTo(h, a, b, depth, Lone(h, l), ra, rb)
  {
    hide Decode, MergeQueues;
    MergeStep(h, a, b, depth);
    var left := MergeQueues(h, Below(a), Below(b), depth - 1);
    MergeNothing(h, left.q1, left.q2, depth - 1);
    assert left.hashes + [] == left.hashes && left.txs + [] == left.txs
      && [true] + left.bits + [] == [true] + left.bits;
  }

  /** Below an inner node of a built tree: its left subtree, and what stands behind that. */
  lemma BuiltBelow(h: HashFn, leaves: seq<MerkleLeaf>, depth: nat, rest: Queues) returns (right: Queues)
    requires depth > 0 && Fits(|leaves|, depth) && MatchedHashes(leaves) != []
    ensures var k := LeftCount(|leaves|, depth);
      var n := Build(h, leaves, depth);
      var l := Build(h, leaves[..k], depth - 1);
      var q := Append(Stream(n), rest);
      && q.bits != [] && Below(q) == Append(Stream(l), right)
      && (if k < |leaves| then
            var r := Build(h, leaves[k..], depth - 1);
            n == Join(h, l, r) && right == Append(Stream(r), rest)
          else n == Lone(h, l) && right == rest)
  {
    hide Build, Append, Join, Lone, Below;
    var k := LeftCount(|leaves|, depth);
    var l := Build(h, leaves[..k], depth - 1);
    BuildInner(h, leaves, depth);
    if k < |leaves| {
      var r := Build(h, leaves[k..], depth - 1);
      right := Append(Stream(r), rest);
      JoinBelow(h, l, r, rest);
    } else {
      right := rest;
      LoneBelow(h, l, rest);
    }
  }

  lemma BuildInner(h: HashFn, leaves: seq<MerkleLeaf>, depth: nat)
    requires depth > 0 && Fits(|leaves|, depth) && MatchedHashes(leaves) != []
    ensures var k := LeftCount(|leaves|, depth);
      var l := Build(h, leaves[..k], depth - 1);
      Build(h, leaves, depth) == if k < |leaves| then Join(h, l, Build(h, leaves[k..], depth - 1)) else Lone(h, l)
  {
    BuildReportsMatches(h, leaves, depth);
  }

  lemma JoinBelow(h: HashFn, l: Node, r: Node, rest: Queues)
    ensures var q := Append(Stream(Join(h, l, r)), rest);
      q.bits != [] && Below(q) == Append(Stream(l), Append(Stream(r), rest))
  {
    FrameParts(h, l, r, rest);
    assert ([true] + (l.bits + (r.bits + rest.bits)))[1..] == l.bits + (r.bits + rest.bits);
  }

  lemma LoneBelow(h: HashFn, l: Node, rest: Queues)
    ensures var q := Append(Stream(Lone(h, l)), rest);
      q.bits != [] && Below(q) == Append(Stream(l), rest)
  {
    assert ([true] + l.bits + rest.bits)[1..] == l.bits + rest.bits;
  }
}
