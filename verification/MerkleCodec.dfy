/** Building and decoding are inverse; what the decoder accepts is authenticated by its root. */
module MerkleCodec {
  import opened Bytes
  import opened MerkleSpec

  function Append(q: Queues, r: Queues): Queues {
    Queues(q.hashes + r.hashes, q.bits + r.bits)
  }

  function Stream(n: Node): Queues {
    Queues(n.hashes, n.bits)
  }

  /** The invariant of a stored tree: its own hashes and bits decode to it, with nothing left over. */
  ghost predicate SelfDecoding(h: HashFn, n: Node, depth: nat) {
    Decode(h, Stream(n), depth) == Decoded(n, Queues([], []))
  }

  /** A tree is read back whole when `rest` follows it, and `rest` is left. */
  ghost predicate ReadsBack(h: HashFn, n: Node, rest: Queues, depth: nat) {
    Decode(h, Append(Stream(n), rest), depth) == Decoded(n, rest)
  }

  // ----- The decoder and what follows its input

  /** A set bit above the leaves, then the left subtree and, if hashes remain, the right one. */
  lemma DecodeInner(h: HashFn, hashes: seq<Bytes>, bits: seq<bool>, depth: nat, l: Node, q: Queues)
    requires depth > 0 && hashes != []
    requires Decode(h, Queues(hashes, bits), depth - 1) == Decoded(l, q)
    ensures var d := Decode(h, Queues(hashes, [true] + bits), depth);
      if q.hashes == [] then d == Decoded(Lone(h, l), q)
      else
        match Decode(h, q, depth - 1)
        case Malformed => d == Malformed
        case Decoded(r, q') => d == Decoded(Join(h, l, r), q')
  {
    assert ([true] + bits)[1..] == bits;
  }

  /** Below a set bit above the leaves: what was decoded to the left, and to the right of it. */
  lemma DecodeCases(h: HashFn, q: Queues, depth: nat)
    requires Decode(h, q, depth).Decoded?
    ensures q.hashes != [] && q.bits != []
    ensures depth > 0 && q.bits[0] ==>
      var left := Decode(h, Queues(q.hashes, q.bits[1..]), depth - 1);
      && left.Decoded?
      && (left.rest.hashes == [] ==> Decode(h, q, depth) == Decoded(Lone(h, left.node), left.rest))
      && (left.rest.hashes != [] ==>
            var right := Decode(h, left.rest, depth - 1);
            right.Decoded? && Decode(h, q, depth) == Decoded(Join(h, left.node, right.node), right.rest))
  {
  }

  /** The decoder reads a prefix of its input. */
  lemma {:induction false} DecodePrefix(h: HashFn, q: Queues, depth: nat)
    requires Decode(h, q, depth).Decoded?
    ensures var d := Decode(h, q, depth);
      q == Append(Stream(d.node), d.rest) && d.node.hashes != [] && d.node.bits != []
    decreases depth
  {
    hide Decode;
    DecodeCases(h, q, depth);
    if depth == 0 || !q.bits[0] {
      LeafReadsBack(h, q, depth, q);
    } else {
      var q0 := Queues(q.hashes, q.bits[1..]);
      var left := Decode(h, q0, depth - 1);
      assert q.bits == [true] + q0.bits;
      DecodePrefix(h, q0, depth - 1);
      if left.rest.hashes == [] {
        LoneParts(h, left.node, left.rest);
      } else {
        var right := Decode(h, left.rest, depth - 1);
        DecodePrefix(h, left.rest, depth - 1);
        FrameParts(h, left.node, right.node, right.rest);
      }
    }
  }

  lemma LoneParts(h: HashFn, l: Node, rest: Queues)
    ensures Lone(h, l).bits + rest.bits == [true] + (l.bits + rest.bits)
  {
  }

  /** That prefix decodes to the same tree in front of any other rest, except that a rest may not appear
      where there was none: "no more hashes" is how the decoder sees that a right subtree is missing. */
  lemma {:induction false} DecodeFrame(h: HashFn, q: Queues, depth: nat, other: Queues)
    requires Decode(h, q, depth).Decoded?
    requires Decode(h, q, depth).rest.hashes != [] || other.hashes == []
    ensures ReadsBack(h, Decode(h, q, depth).node, other, depth)
    decreases depth
  {
    hide ReadsBack, Decode;
    DecodeCases(h, q, depth);
    if depth == 0 || !q.bits[0] {
      LeafReadsBack(h, q, depth, other);
    } else {
      var q0 := Queues(q.hashes, q.bits[1..]);
      var left := Decode(h, q0, depth - 1);
      DecodePrefix(h, q0, depth - 1);
      if left.rest.hashes == [] {
        DecodeFrame(h, q0, depth - 1, other);
        DecodeInnerLone(h, left.node, other, depth);
      } else {
        var right := Decode(h, left.rest, depth - 1);
        DecodePrefix(h, left.rest, depth - 1);
        DecodeFrame(h, left.rest, depth - 1, other);
        DecodeFrame(h, q0, depth - 1, Append(Stream(right.node), other));
        DecodeInnerJoin(h, left.node, right.node, other, depth);
      }
    }
  }

  lemma LeafReadsBack(h: HashFn, q: Queues, depth: nat, other: Queues)
    requires Decode(h, q, depth).Decoded? && (depth == 0 || !q.bits[0])
    ensures var d := Decode(h, q, depth);
      q == Append(Stream(d.node), d.rest) && d.node.hashes != [] && d.node.bits != []
      && ReadsBack(h, d.node, other, depth)
  {
    var again := Append(Stream(Decode(h, q, depth).node), other);
    assert again.hashes[1..] == other.hashes && again.bits[1..] == other.bits;
  }

  lemma FrameParts(h: HashFn, l: Node, r: Node, rest: Queues)
    ensures var n := Join(h, l, r);
      && n.hashes + rest.hashes == l.hashes + (r.hashes + rest.hashes)
      && n.bits + rest.bits == [true] + (l.bits + (r.bits + rest.bits))
  {
  }

  lemma DecodeInnerLone(h: HashFn, l: Node, rest: Queues, depth: nat)
    requires depth > 0 && l.hashes != [] && rest.hashes == []
    requires ReadsBack(h, l, rest, depth - 1)
    ensures ReadsBack(h, Lone(h, l), rest, depth)
  {
    DecodeInner(h, l.hashes + rest.hashes, l.bits + rest.bits, depth, l, rest);
    LoneParts(h, l, rest);
  }

  lemma DecodeInnerJoin(h: HashFn, l: Node, r: Node, rest: Queues, depth: nat)
    requires depth > 0 && l.hashes != [] && r.hashes != []
    requires ReadsBack(h, l, Append(Stream(r), rest), depth - 1)
    requires ReadsBack(h, r, rest, depth - 1)
    ensures ReadsBack(h, Join(h, l, r), rest, depth)
  {
    var rest' := Append(Stream(r), rest);
    FrameParts(h, l, r, rest);
    DecodeInner(h, l.hashes + rest'.hashes, l.bits + rest'.bits, depth, l, rest');
  }

  /** Whatever is decoded can be stored and decoded again. */
  lemma DecodedIsSelfDecoding(h: HashFn, q: Queues, depth: nat)
    requires Decode(h, q, depth).Decoded?
    ensures SelfDecoding(h, Decode(h, q, depth).node, depth)
  {
    var n := Decode(h, q, depth).node;
    DecodeFrame(h, q, depth, Queues([], []));
    assert Append(Stream(n), Queues([], [])) == Stream(n);
  }

  // ----- The decoder of the format's definition

  /** The parser BIP37 describes: the transaction count fixes the shape of the tree, so that a right
      subtree is present exactly if there are leaves left for it. */
  function ReferenceDecode(h: HashFn, q: Queues, n: nat, depth: nat): Decoded
    requires Fits(n, depth)
    decreases depth
  {
    if q.hashes == [] || q.bits == [] then
      Malformed
    else if depth == 0 || !q.bits[0] then
      Decoded(LeafNode(q.hashes[0], q.bits[0]), Queues(q.hashes[1..], q.bits[1..]))
    else
      var k := LeftCount(n, depth);
      match ReferenceDecode(h, Queues(q.hashes, q.bits[1..]), k, depth - 1)
      case Malformed => Malformed
      case Decoded(l, q') =>
        if k == n then Decoded(Lone(h, l), q')
        else
          match ReferenceDecode(h, q', n - k, depth - 1)
          case Malformed => Malformed
          case Decoded(r, q'') => Decoded(Join(h, l, r), q'')
  }

  /** A subtree with all its leaves is decoded alike in front of anything; one that lacks some, which
      only the right edge of a tree does, at the end of the hashes. */
  lemma {:induction false} DecodeRefinesReference(h: HashFn, q: Queues, n: nat, depth: nat)
    requires Fits(n, depth)
    requires var d := ReferenceDecode(h, q, n, depth);
      d.Decoded? && (n == Pow2(depth) || d.rest.hashes == [])
    ensures Decode(h, q, depth) == ReferenceDecode(h, q, n, depth)
    decreases depth
  {
    if depth > 0 && q.bits[0] {
      var k := LeftCount(n, depth);
      var q0 := Queues(q.hashes, q.bits[1..]);
      var left := ReferenceDecode(h, q0, k, depth - 1);
      DecodeRefinesReference(h, q0, k, depth - 1);
      if k < n {
        DecodeRefinesReference(h, left.rest, n - k, depth - 1);
      }
    }
  }

  /** How many hashes the bits ask for under a transaction count, and the bits that are left. */
  function Asked(bits: seq<bool>, n: nat, depth: nat): (r: Option<(nat, seq<bool>)>)
    requires Fits(n, depth)
    ensures r.Some? ==> r.value.0 >= 1
    decreases depth
  {
    if bits == [] then None
    else if depth == 0 || !bits[0] then Some((1, bits[1..]))
    else
      var k := LeftCount(n, depth);
      var l := Asked(bits[1..], k, depth - 1);
      if l.None? || k == n then l
      else
        var r := Asked(l.value.1, n - k, depth - 1);
        if r.None? then None else Some((l.value.0 + r.value.0, r.value.1))
  }

  /** One unfolding of what the bits ask for, and of the parser of the format. */
  lemma AskedStep(h: HashFn, q: Queues, n: nat, depth: nat)
    requires Fits(n, depth)
    ensures q.bits == [] ==> Asked(q.bits, n, depth).None?
    ensures q.hashes == [] || q.bits == [] ==> ReferenceDecode(h, q, n, depth).Malformed?
    ensures q.bits != [] && (depth == 0 || !q.bits[0]) ==> Asked(q.bits, n, depth) == Some((1, q.bits[1..]))
    ensures q.hashes != [] && q.bits != [] && (depth == 0 || !q.bits[0]) ==>
      var d := ReferenceDecode(h, q, n, depth);
      d.Decoded? && d.rest == Queues(q.hashes[1..], q.bits[1..])
    ensures q.bits != [] && depth > 0 && q.bits[0] ==>
      var k := LeftCount(n, depth);
      var l := Asked(q.bits[1..], k, depth - 1);
      if l.None? || k == n then Asked(q.bits, n, depth) == l
      else
        var r := Asked(l.value.1, n - k, depth - 1);
        Asked(q.bits, n, depth) == if r.None? then None else Some((l.value.0 + r.value.0, r.value.1))
    ensures q.hashes != [] && q.bits != [] && depth > 0 && q.bits[0] ==>
      var k, d := LeftCount(n, depth), ReferenceDecode(h, q, n, depth);
      var l := ReferenceDecode(h, Queues(q.hashes, q.bits[1..]), k, depth - 1);
      if l.Malformed? then d.Malformed?
      else if k == n then d.Decoded? && d.rest == l.rest
      else
        var r := ReferenceDecode(h, l.rest, n - k, depth - 1);
        if r.Malformed? then d.Malformed? else d.Decoded? && d.rest == r.rest
  {
    hide Pow2;
  }

  lemma AskedPositive(bits: seq<bool>, n: nat, depth: nat)
    requires Fits(n, depth)
    ensures var a := Asked(bits, n, depth); a.Some? ==> a.value.0 >= 1
  {
  }

  /** The parser of the format reads a stream just when it has the hashes its bits ask for. */
  lemma {:induction false} ReferenceReadsAsked(h: HashFn, q: Queues, n: nat, depth: nat)
    requires Fits(n, depth)
    ensures var d, a := ReferenceDecode(h, q, n, depth), Asked(q.bits, n, depth);
      && (d.Decoded? <==> a.Some? && a.value.0 <= |q.hashes|)
      && (d.Decoded? ==> |d.rest.hashes| == |q.hashes| - a.value.0 && d.rest.bits == a.value.1)
    decreases depth
  {
    hide Pow2, Asked, ReferenceDecode;
    AskedStep(h, q, n, depth);
    AskedPositive(q.bits, n, depth);
    if q.bits != [] && depth > 0 && q.bits[0] {
      var k := LeftCount(n, depth);
      var q0 := Queues(q.hashes, q.bits[1..]);
      ReferenceReadsAsked(h, q0, k, depth - 1);
      AskedPositive(q0.bits, k, depth - 1);
      var l := Asked(q0.bits, k, depth - 1);
      if l.Some? && k < n {
        AskedPositive(l.value.1, n - k, depth - 1);
      }
      var left := ReferenceDecode(h, q0, k, depth - 1);
      if left.Decoded? && k < n {
        ReferenceReadsAsked(h, left.rest, n - k, depth - 1);
      }
    }
  }

  /** What the decoder accepts to the last hash has the shape of the format exactly if its bits ask for
      as many hashes as there are. */
  lemma AcceptedConformsIff(h: HashFn, q: Queues, n: nat, depth: nat)
    requires Fits(n, depth)
    requires var d := Decode(h, q, depth); d.Decoded? && d.rest.hashes == []
    ensures var a := Asked(q.bits, n, depth);
      ReferenceDecode(h, q, n, depth) == Decode(h, q, depth) <==> a.Some? && a.value.0 == |q.hashes|
  {
    hide Decode, ReferenceDecode, Asked;
    ReferenceReadsAsked(h, q, n, depth);
    if ReferenceDecode(h, q, n, depth).Decoded? && ReferenceDecode(h, q, n, depth).rest.hashes == [] {
      DecodeRefinesReference(h, q, n, depth);
    }
  }

  /** The same of a stored tree: it conforms exactly if its bits ask for its hashes and for no more bits. */
  lemma StoredConformsIff(h: HashFn, node: Node, n: nat, depth: nat)
    requires Fits(n, depth) && SelfDecoding(h, node, depth)
    ensures Conforms(h, node, n, depth) <==> Asked(node.bits, n, depth) == Some((|node.hashes|, []))
  {
    hide Decode, ReferenceDecode, Asked;
    var q, end := Stream(node), Queues([], []);
    assert Append(q, end) == q;
    AcceptedConformsIff(h, q, n, depth);
    ReferenceReadsAsked(h, q, n, depth);
    if Conforms(h, node, n, depth) {
      assert ReferenceDecode(h, Append(q, end), n, depth) == Decoded(node, end);
    }
    if Asked(node.bits, n, depth) == Some((|node.hashes|, [])) {
      ReferenceDecodeConforms(h, q, n, depth);
    }
  }

  /** The converse fails: three or four transactions cannot hang on a single hash, but the decoder
      takes a missing hash for a missing subtree. */
  lemma DecodeAcceptsMore(h: HashFn, x: Bytes)
    ensures var q := Queues([x], [true, true, true]);
      && Decode(h, q, 2).Decoded?
      && ReferenceDecode(h, q, 3, 2).Malformed? && ReferenceDecode(h, q, 4, 2).Malformed?
  {
  }

  /** A tree is read back whole by the reference parser, whatever follows it. */
  ghost predicate Conforms(h: HashFn, node: Node, n: nat, depth: nat)
    requires Fits(n, depth)
  {
    forall rest: Queues :: ReferenceDecode(h, Append(Stream(node), rest), n, depth) == Decoded(node, rest)
  }

  lemma ConformingLeaf(h: HashFn, hash: Bytes, bit: bool, n: nat, depth: nat)
    requires Fits(n, depth) && (depth == 0 || !bit)
    ensures Conforms(h, LeafNode(hash, bit), n, depth)
  {
    forall rest: Queues
      ensures ReferenceDecode(h, Append(Stream(LeafNode(hash, bit)), rest), n, depth)
        == Decoded(LeafNode(hash, bit), rest)
    {
      assert ([hash] + rest.hashes)[1..] == rest.hashes && ([bit] + rest.bits)[1..] == rest.bits;
    }
  }

  lemma ConformingLone(h: HashFn, l: Node, n: nat, depth: nat)
    requires Fits(n, depth) && depth > 0 && LeftCount(n, depth) == n
    requires Conforms(h, l, n, depth - 1) && l.hashes != []
    ensures Conforms(h, Lone(h, l), n, depth)
  {
    forall rest: Queues
      ensures ReferenceDecode(h, Append(Stream(Lone(h, l)), rest), n, depth) == Decoded(Lone(h, l), rest)
    {
      var q := Append(Stream(Lone(h, l)), rest);
      assert q.bits[1..] == l.bits + rest.bits;
      assert ReferenceDecode(h, Append(Stream(l), rest), n, depth - 1) == Decoded(l, rest);
    }
  }

  lemma ConformingJoin(h: HashFn, l: Node, r: Node, n: nat, depth: nat)
    requires Fits(n, depth) && depth > 0 && LeftCount(n, depth) < n
    requires Conforms(h, l, LeftCount(n, depth), depth - 1) && l.hashes != []
    requires Conforms(h, r, n - LeftCount(n, depth), depth - 1)
    ensures Conforms(h, Join(h, l, r), n, depth)
  {
    hide ReferenceDecode, LeftCount;
    var k := LeftCount(n, depth);
    forall rest: Queues
      ensures ReferenceDecode(h, Append(Stream(Join(h, l, r)), rest), n, depth) == Decoded(Join(h, l, r), rest)
    {
      var rest' := Append(Stream(r), rest);
      assert ReferenceDecode(h, Append(Stream(l), rest'), k, depth - 1) == Decoded(l, rest');
      assert ReferenceDecode(h, rest', n - k, depth - 1) == Decoded(r, rest);
      ReferenceJoin(h, Append(Stream(l), rest'), n, depth, l, rest', r, rest);
      FrameParts(h, l, r, rest);
    }
  }

  lemma ReferenceJoin(h: HashFn, q: Queues, n: nat, depth: nat, l: Node, q': Queues, r: Node, rest: Queues)
    requires Fits(n, depth) && depth > 0 && LeftCount(n, depth) < n && q.hashes != []
    requires ReferenceDecode(h, q, LeftCount(n, depth), depth - 1) == Decoded(l, q')
    requires ReferenceDecode(h, q', n - LeftCount(n, depth), depth - 1) == Decoded(r, rest)
    ensures ReferenceDecode(h, Queues(q.hashes, [true] + q.bits), n, depth) == Decoded(Join(h, l, r), rest)
  {
    assert ([true] + q.bits)[1..] == q.bits;
  }

  /** What the reference parser has read, it reads again. */
  lemma {:induction false} ReferenceDecodeConforms(h: HashFn, q: Queues, n: nat, depth: nat)
    requires Fits(n, depth)
    requires ReferenceDecode(h, q, n, depth).Decoded?
    ensures var node := ReferenceDecode(h, q, n, depth).node;
      Conforms(h, node, n, depth) && node.hashes != []
    decreases depth
  {
    if depth == 0 || !q.bits[0] {
      ConformingLeaf(h, q.hashes[0], q.bits[0], n, depth);
    } else {
      var k := LeftCount(n, depth);
      var q0 := Queues(q.hashes, q.bits[1..]);
      var left := ReferenceDecode(h, q0, k, depth - 1);
      ReferenceDecodeConforms(h, q0, k, depth - 1);
      if k < n {
        ReferenceDecodeConforms(h, left.rest, n - k, depth - 1);
        ConformingJoin(h, left.node, ReferenceDecode(h, left.rest, n - k, depth - 1).node, n, depth);
      } else {
        ConformingLone(h, left.node, n, depth);
      }
    }
  }

  // ----- Decoding what was built

  lemma {:induction false} BuildConforms(h: HashFn, leaves: seq<MerkleLeaf>, depth: nat)
    requires Fits(|leaves|, depth)
    ensures Conforms(h, Build(h, leaves, depth), |leaves|, depth)
    decreases depth
  {
    var n := Build(h, leaves, depth);
    BuildShape(h, leaves, depth);
    if depth == 0 || !n.bits[0] {
      ConformingLeaf(h, n.root, n.bits[0], |leaves|, depth);
    } else {
      var k := LeftCount(|leaves|, depth);
      BuildConforms(h, leaves[..k], depth - 1);
      BuildShape(h, leaves[..k], depth - 1);
      if k < |leaves| {
        BuildConforms(h, leaves[k..], depth - 1);
        ConformingJoin(h, Build(h, leaves[..k], depth - 1), Build(h, leaves[k..], depth - 1), |leaves|, depth);
      } else {
        ConformingLone(h, Build(h, leaves[..k], depth - 1), |leaves|, depth);
      }
    }
  }

  lemma ConformingReadsBack(h: HashFn, node: Node, n: nat, depth: nat, rest: Queues)
    requires Fits(n, depth) && Conforms(h, node, n, depth)
    requires n == Pow2(depth) || rest.hashes == []
    ensures ReadsBack(h, node, rest, depth)
  {
    DecodeRefinesReference(h, Append(Stream(node), rest), n, depth);
  }

  lemma DecodeBuild(h: HashFn, leaves: seq<MerkleLeaf>, depth: nat, rest: Queues)
    requires Fits(|leaves|, depth)
    requires |leaves| == Pow2(depth) || rest.hashes == []
    ensures ReadsBack(h, Build(h, leaves, depth), rest, depth)
  {
    BuildConforms(h, leaves, depth);
    ConformingReadsBack(h, Build(h, leaves, depth), |leaves|, depth, rest);
  }

  lemma BuildShape(h: HashFn, leaves: seq<MerkleLeaf>, depth: nat)
    requires Fits(|leaves|, depth)
    ensures var n := Build(h, leaves, depth);
      && n.hashes != [] && n.bits != []
      && (n.bits[0] <==> n.txs != [])
      && (!n.bits[0] ==> n == LeafNode(n.root, false))
    decreases depth
  {
    if depth > 0 {
      var k := LeftCount(|leaves|, depth);
      BuildShape(h, leaves[..k], depth - 1);
      if k < |leaves| {
        BuildShape(h, leaves[k..], depth - 1);
      }
    }
  }

  lemma BuildIsSelfDecoding(h: HashFn, leaves: seq<MerkleLeaf>, depth: nat)
    requires Fits(|leaves|, depth)
    ensures SelfDecoding(h, Build(h, leaves, depth), depth)
  {
    var n := Build(h, leaves, depth);
    DecodeBuild(h, leaves, depth, Queues([], []));
    assert Append(Stream(n), Queues([], [])) == Stream(n);
  }

  // ----- What a built tree holds

  function HashesOf(leaves: seq<MerkleLeaf>): (hs: seq<Bytes>)
    ensures |hs| == |leaves|
    ensures forall i :: 0 <= i < |hs| ==> hs[i] == leaves[i].hash
  {
    seq(|leaves|, i requires 0 <= i < |leaves| => leaves[i].hash)
  }

  function MatchedHashes(leaves: seq<MerkleLeaf>): seq<Bytes> {
    if leaves == [] then []
    else (if leaves[0].matched then [leaves[0].hash] else []) + MatchedHashes(leaves[1..])
  }

  lemma MatchedHashesConcat(a: seq<MerkleLeaf>, b: seq<MerkleLeaf>)
    ensures MatchedHashes(a + b) == MatchedHashes(a) + MatchedHashes(b)
  {
    if a == [] {
      assert a + b == b;
    } else {
      assert (a + b)[1..] == a[1..] + b;
    }
  }

  /** The reported transactions are the matched leaves, in leaf order. */
  lemma {:induction false} BuildReportsMatches(h: HashFn, leaves: seq<MerkleLeaf>, depth: nat)
    requires Fits(|leaves|, depth)
    ensures Build(h, leaves, depth).txs == MatchedHashes(leaves)
    decreases depth
  {
    if depth == 0 {
      assert MatchedHashes(leaves[1..]) == [];
    } else {
      var k := LeftCount(|leaves|, depth);
      BuildReportsMatches(h, leaves[..k], depth - 1);
      assert leaves == leaves[..k] + leaves[k..];
      MatchedHashesConcat(leaves[..k], leaves[k..]);
      if k < |leaves| {
        BuildReportsMatches(h, leaves[k..], depth - 1);
      }
    }
  }

  /** The root of a tree over these leaf hashes, split at powers of two from the top. */
  function TopDownRoot(h: HashFn, hs: seq<Bytes>, depth: nat): Bytes
    requires Fits(|hs|, depth)
    decreases depth
  {
    if depth == 0 then hs[0]
    else
      var k := LeftCount(|hs|, depth);
      var l := TopDownRoot(h, hs[..k], depth - 1);
      h(l + if k < |hs| then TopDownRoot(h, hs[k..], depth - 1) else l)
  }

  /** The root depends on the leaf hashes alone, not on which of them are matched. */
  lemma {:induction false} BuildRootOfHashes(h: HashFn, leaves: seq<MerkleLeaf>, depth: nat)
    requires Fits(|leaves|, depth)
    ensures Build(h, leaves, depth).root == TopDownRoot(h, HashesOf(leaves), depth)
    decreases depth
  {
    if depth > 0 {
      var k := LeftCount(|leaves|, depth);
      BuildRootOfHashes(h, leaves[..k], depth - 1);
      assert HashesOf(leaves[..k]) == HashesOf(leaves)[..k];
      if k < |leaves| {
        BuildRootOfHashes(h, leaves[k..], depth - 1);
        assert HashesOf(leaves[k..]) == HashesOf(leaves)[k..];
      }
    }
  }

  /** m matches at depth d cost at most m * (d + 1) hashes; no match costs one. */
  lemma {:induction false} BuildSize(h: HashFn, leaves: seq<MerkleLeaf>, depth: nat)
    requires Fits(|leaves|, depth)
    ensures var n := Build(h, leaves, depth);
      if n.txs == [] then |n.hashes| == 1 else |n.hashes| <= |n.txs| * (depth + 1)
    decreases depth
  {
    if depth > 0 {
      var k := LeftCount(|leaves|, depth);
      var l := Build(h, leaves[..k], depth - 1);
      BuildSize(h, leaves[..k], depth - 1);
      if k < |leaves| {
        var r := Build(h, leaves[k..], depth - 1);
        BuildSize(h, leaves[k..], depth - 1);
        assert (|l.txs| + |r.txs|) * (depth + 1) == |l.txs| * depth + |r.txs| * depth + |l.txs| + |r.txs|;
      } else {
        assert |l.txs| * (depth + 1) == |l.txs| * depth + |l.txs|;
      }
    }
  }

  // ----- Authentication of what was decoded

  /** One step up the tree: the sibling's hash, and on which side of us it stands. */
  datatype Step = Step(sibling: Bytes, onLeft: bool)

  /** The hash reached from `leaf` by going up through the siblings, the last of the path first. */
  function Fold(h: HashFn, leaf: Bytes, path: seq<Step>): Bytes
    decreases |path|
  {
    if path == [] then leaf
    else
      var below := Fold(h, leaf, path[1..]);
      if path[0].onLeft then h(path[0].sibling + below) else h(below + path[0].sibling)
  }

  ghost predicate Authentic(h: HashFn, tx: Bytes, depth: nat, root: Bytes) {
    exists path: seq<Step> :: |path| == depth && Fold(h, tx, path) == root
  }

  lemma AuthenticAbove(h: HashFn, tx: Bytes, depth: nat, below: Bytes, s: Step)
    requires Authentic(h, tx, depth, below)
    ensures Authentic(h, tx, depth + 1, if s.onLeft then h(s.sibling + below) else h(below + s.sibling))
  {
    var path: seq<Step> :| |path| == depth && Fold(h, tx, path) == below;
    assert ([s] + path)[1..] == path;
    assert Fold(h, tx, [s] + path) == if s.onLeft then h(s.sibling + below) else h(below + s.sibling);
  }

  /** Whatever bytes the decoder was given: each transaction hash it reports is tied to the root it
      reports by exactly `depth` siblings. */
  lemma {:induction false} DecodedIsAuthentic(h: HashFn, q: Queues, depth: nat)
    requires Decode(h, q, depth).Decoded?
    ensures var n := Decode(h, q, depth).node;
      forall tx :: tx in n.txs ==> Authentic(h, tx, depth, n.root)
    decreases depth
  {
    var n := Decode(h, q, depth).node;
    if depth == 0 || !q.bits[0] {
      assert Fold(h, q.hashes[0], []) == n.root;
    } else {
      var q0 := Queues(q.hashes, q.bits[1..]);
      var left := Decode(h, q0, depth - 1);
      DecodedIsAuthentic(h, q0, depth - 1);
      var lone := left.rest.hashes == [];
      if !lone {
        DecodedIsAuthentic(h, left.rest, depth - 1);
      }
      forall tx | tx in n.txs ensures Authentic(h, tx, depth, n.root) {
        if tx in left.node.txs {
          AuthenticAbove(h, tx, depth - 1, left.node.root,
            Step(if lone then left.node.root else Decode(h, left.rest, depth - 1).node.root, false));
        } else {
          var right := Decode(h, left.rest, depth - 1);
          AuthenticAbove(h, tx, depth - 1, right.node.root, Step(left.node.root, true));
        }
      }
    }
  }
}
