/** The trees behind compressed streams: when merged lists are read back as the tree that was merged. */
module MerkleShape {
  import opened Bytes
  import opened MerkleSpec
  import opened MerkleCodec
  import opened MerkleMerge

  /** A tip, a node without a right subtree, or a node with both. */
  datatype Tree = Tip(hash: Bytes, bit: bool) | Single(left: Tree) | Pair(left: Tree, right: Tree)

  /** What the program keeps of a tree. */
  function NodeOf(h: HashFn, t: Tree): (n: Node)
    ensures n.hashes != [] && n.bits != []
  {
    match t
    case Tip(hash, bit) => LeafNode(hash, bit)
    case Single(l) => Lone(h, NodeOf(h, l))
    case Pair(l, r) => Join(h, NodeOf(h, l), NodeOf(h, r))
  }

  function RootOf(h: HashFn, t: Tree): Bytes {
    NodeOf(h, t).root
  }

  datatype Parsed = Unparsed | Parsed(tree: Tree, rest: Queues)

  /** The tree the decoder walks through. */
  function Parse(q: Queues, depth: nat): Parsed
    decreases depth
  {
    if q.hashes == [] || q.bits == [] then Unparsed
    else if depth == 0 || !q.bits[0] then
      Parsed(Tip(q.hashes[0], q.bits[0]), Queues(q.hashes[1..], q.bits[1..]))
    else
      match Parse(Queues(q.hashes, q.bits[1..]), depth - 1)
      case Unparsed => Unparsed
      case Parsed(l, q') =>
        if q'.hashes == [] then Parsed(Single(l), q')
        else
          match Parse(q', depth - 1)
          case Unparsed => Unparsed
          case Parsed(r, q'') => Parsed(Pair(l, r), q'')
  }

  lemma {:induction false} DecodeIsParse(h: HashFn, q: Queues, depth: nat)
    ensures Decode(h, q, depth) == match Parse(q, depth)
                                   case Unparsed => Malformed
                                   case Parsed(t, rest) => Decoded(NodeOf(h, t), rest)
    decreases depth
  {
    if q.hashes != [] && q.bits != [] && depth > 0 && q.bits[0] {
      var q0 := Queues(q.hashes, q.bits[1..]);
      DecodeIsParse(h, q0, depth - 1);
      var left := Parse(q0, depth - 1);
      if left.Parsed? && left.rest.hashes != [] {
        DecodeIsParse(h, left.rest, depth - 1);
      }
    }
  }

  // ----- Trees that are read back as they are

  /** Some right subtree is missing. */
  predicate Open(t: Tree) {
    match t
    case Tip(_, _) => false
    case Single(_) => true
    case Pair(l, r) => Open(l) || Open(r)
  }

  /** Right subtrees are missing at the right edge only. */
  predicate Proper(t: Tree) {
    match t
    case Tip(_, _) => true
    case Single(l) => Proper(l)
    case Pair(l, r) => Proper(l) && Proper(r) && !Open(l)
  }

  /** The tree has at most so many levels below its root, and set bits at its tips on the lowest only. */
  predicate Shaped(t: Tree, depth: nat) {
    match t
    case Tip(_, bit) => bit ==> depth == 0
    case Single(l) => depth > 0 && Shaped(l, depth - 1)
    case Pair(l, r) => depth > 0 && Shaped(l, depth - 1) && Shaped(r, depth - 1)
  }

  lemma {:induction false} ParsedIsProper(q: Queues, depth: nat)
    requires Parse(q, depth).Parsed?
    ensures var p := Parse(q, depth);
      Proper(p.tree) && Shaped(p.tree, depth) && (Open(p.tree) ==> p.rest.hashes == [])
    decreases depth
  {
    if depth > 0 && q.bits[0] {
      var q0 := Queues(q.hashes, q.bits[1..]);
      ParsedIsProper(q0, depth - 1);
      var left := Parse(q0, depth - 1);
      if left.rest.hashes != [] {
        ParsedIsProper(left.rest, depth - 1);
      }
    }
  }

  lemma {:induction false} ParseBack(h: HashFn, t: Tree, depth: nat, rest: Queues)
    requires Shaped(t, depth) && Proper(t) && (Open(t) ==> rest.hashes == [])
    ensures Parse(Append(Stream(NodeOf(h, t)), rest), depth) == Parsed(t, rest)
    decreases t
  {
    hide Parse;
    var n := NodeOf(h, t);
    match t
    case Tip(hash, bit) =>
      ParseTip(hash, bit, depth, rest);
    case Single(l) =>
      ParseBack(h, l, depth - 1, rest);
      LoneParts(h, NodeOf(h, l), rest);
      ParseInner(Append(Stream(NodeOf(h, l)), rest), depth, l, rest);
    case Pair(l, r) =>
      var rest' := Append(Stream(NodeOf(h, r)), rest);
      ParseBack(h, r, depth - 1, rest);
      ParseBack(h, l, depth - 1, rest');
      FrameParts(h, NodeOf(h, l), NodeOf(h, r), rest);
      ParseInner(Append(Stream(NodeOf(h, l)), rest'), depth, l, rest');
  }

  lemma ParseTip(hash: Bytes, bit: bool, depth: nat, rest: Queues)
    requires bit ==> depth == 0
    ensures Parse(Queues([hash] + rest.hashes, [bit] + rest.bits), depth) == Parsed(Tip(hash, bit), rest)
  {
    assert ([hash] + rest.hashes)[1..] == rest.hashes && ([bit] + rest.bits)[1..] == rest.bits;
  }

  lemma ParseInner(q: Queues, depth: nat, l: Tree, rest: Queues)
    requires depth > 0 && q.hashes != [] && Parse(q, depth - 1) == Parsed(l, rest)
    ensures var p := Parse(Queues(q.hashes, [true] + q.bits), depth);
      if rest.hashes == [] then p == Parsed(Single(l), rest)
      else
        match Parse(rest, depth - 1)
        case Unparsed => p == Unparsed
        case Parsed(r, rest') => p == Parsed(Pair(l, r), rest')
  {
    assert ([true] + q.bits)[1..] == q.bits;
  }

  /** A tree's own hashes and bits are read back as the tree exactly if it is proper. */
  lemma ReadBackIff(h: HashFn, t: Tree, depth: nat)
    requires Shaped(t, depth)
    ensures Parse(Stream(NodeOf(h, t)), depth) == Parsed(t, Queues([], [])) <==> Proper(t)
  {
    var end := Queues([], []);
    assert Append(Stream(NodeOf(h, t)), end) == Stream(NodeOf(h, t));
    if Proper(t) {
      ParseBack(h, t, depth, end);
    }
    if Parse(Stream(NodeOf(h, t)), depth).Parsed? {
      ParsedIsProper(Stream(NodeOf(h, t)), depth);
    }
  }

  // ----- The tree of a merge

  /** Both trees laid over each other: tips give way to subtrees, missing subtrees to present ones. */
  function Together(a: Tree, b: Tree): Tree
    decreases a, b
  {
    match (a, b)
    case (Tip(x, bit), Tip(_, bit')) => Tip(x, bit || bit')
    case (Tip(_, _), _) => b
    case (_, Tip(_, _)) => a
    case (Single(l), Single(l')) => Single(Together(l, l'))
    case (Single(l), Pair(l', r')) => Pair(Together(l, l'), r')
    case (Pair(l, r), Single(l')) => Pair(Together(l, l'), r)
    case (Pair(l, r), Pair(l', r')) => Pair(Together(l, l'), Together(r, r'))
  }

  /** Every tip has the hash of what stands in its place in the other tree. */
  predicate Agree(h: HashFn, a: Tree, b: Tree)
    decreases a, b
  {
    match (a, b)
    case (Tip(x, _), _) => x == RootOf(h, b)
    case (_, Tip(y, _)) => RootOf(h, a) == y
    case (Pair(l, r), Pair(l', r')) => Agree(h, l, l') && Agree(h, r, r')
    case _ => Agree(h, a.left, b.left)
  }

  lemma {:induction false} TogetherSymmetric(h: HashFn, a: Tree, b: Tree)
    ensures Agree(h, a, b) <==> Agree(h, b, a)
    ensures Agree(h, a, b) ==> Together(a, b) == Together(b, a)
    decreases a, b
  {
    hide NodeOf;
    if a.Tip? && b.Tip? {
      TipRoots(h, a);
      TipRoots(h, b);
    } else if !a.Tip? && !b.Tip? {
      TogetherSymmetric(h, a.left, b.left);
      if a.Pair? && b.Pair? {
        TogetherSymmetric(h, a.right, b.right);
      }
    }
  }

  lemma TipRoots(h: HashFn, t: Tree)
    ensures t.Tip? ==> RootOf(h, t) == t.hash
  {
  }

  lemma {:induction false} TogetherShaped(a: Tree, b: Tree, depth: nat)
    requires Shaped(a, depth) && Shaped(b, depth)
    ensures Shaped(Together(a, b), depth)
    decreases a, b
  {
    if !a.Tip? && !b.Tip? {
      TogetherShaped(a.left, b.left, depth - 1);
      if a.Pair? && b.Pair? {
        TogetherShaped(a.right, b.right, depth - 1);
      }
    }
  }

  /** What merging two streams does, given the trees in front of them. */
  ghost predicate MergesTrees(h: HashFn, m: Merged, a: Tree, b: Tree, ra: Queues, rb: Queues) {
    if Agree(h, a, b) then
      var n := NodeOf(h, Together(a, b));
      && m.Merged? && m.hashes == n.hashes && m.txs == n.txs && m.bits == n.bits
      && SameQueues(m.q1, m.q2, ra, rb)
    else m == Failed(HashMismatch)
  }

  /** Merging lays the two trees over each other, or finds that their hashes do not agree. */
  lemma {:induction false} MergeIsTogether(h: HashFn, a: Queues, b: Queues, depth: nat)
    requires Parse(a, depth).Parsed? && Parse(b, depth).Parsed?
    ensures var pa, pb := Parse(a, depth), Parse(b, depth);
      MergesTrees(h, MergeQueues(h, a, b, depth), pa.tree, pb.tree, pa.rest, pb.rest)
    decreases depth
  {
    hide Decode, MergeQueues, MergesTrees;
    DecodeIsParse(h, a, depth);
    DecodeIsParse(h, b, depth);
    DecodedHasData(h, a, depth);
    DecodedHasData(h, b, depth);
    MergeStep(h, a, b, depth);
    if IsInner(a, depth) && IsInner(b, depth) {
      MergeInnerTogether(h, a, b, depth);
    } else {
      MergeTipTogether(h, a, b, depth);
    }
  }

  lemma MergeTipTogether(h: HashFn, a: Queues, b: Queues, depth: nat)
    requires Parse(a, depth).Parsed? && Parse(b, depth).Parsed?
    requires !(IsInner(a, depth) && IsInner(b, depth))
    ensures var pa, pb := Parse(a, depth), Parse(b, depth);
      MergesTrees(h, MergeQueues(h, a, b, depth), pa.tree, pb.tree, pa.rest, pb.rest)
  {
    hide Decode, MergeQueues;
    DecodeIsParse(h, a, depth);
    DecodeIsParse(h, b, depth);
    MergeStep(h, a, b, depth);
  }

  /** The left subtree and what follows it, and the right subtree if hashes remain. */
  lemma ParseParts(q: Queues, depth: nat) returns (l: Tree, r: Queues)
    requires IsInner(q, depth) && Parse(q, depth).Parsed?
    ensures Parse(Below(q), depth - 1) == Parsed(l, r)
    ensures r.hashes == [] ==> Parse(q, depth) == Parsed(Single(l), r)
    ensures r.hashes != [] ==>
      var p := Parse(r, depth - 1);
      p.Parsed? && Parse(q, depth) == Parsed(Pair(l, p.tree), p.rest)
  {
    var p := Parse(Below(q), depth - 1);
    l, r := p.tree, p.rest;
  }

  lemma {:induction false} MergeInnerTogether(h: HashFn, a: Queues, b: Queues, depth: nat)
    requires Parse(a, depth).Parsed? && Parse(b, depth).Parsed? && IsInner(a, depth) && IsInner(b, depth)
    ensures var pa, pb := Parse(a, depth), Parse(b, depth);
      MergesTrees(h, MergeQueues(h, a, b, depth), pa.tree, pb.tree, pa.rest, pb.rest)
    decreases depth, 0
  {
    hide Decode, MergeQueues, Parse;
    DecodeIsParse(h, a, depth);
    DecodeIsParse(h, b, depth);
    MergeStep(h, a, b, depth);
    var la, ra := ParseParts(a, depth);
    var lb, rb := ParseParts(b, depth);
    MergeIsTogether(h, Below(a), Below(b), depth - 1);
    var left := MergeQueues(h, Below(a), Below(b), depth - 1);
    if left.Merged? {
      if ra.hashes != [] && rb.hashes != [] {
        MergeIsTogether(h, left.q1, left.q2, depth - 1);
        TogetherSymmetric(h, Parse(left.q1, depth - 1).tree, Parse(left.q2, depth - 1).tree);
      } else if ra.hashes == [] && rb.hashes == [] {
        MergeNothing(h, left.q1, left.q2, depth - 1);
        assert left.hashes + [] == left.hashes && left.txs + [] == left.txs
          && [true] + left.bits + [] == [true] + left.bits;
      } else {
        MergeOne(h, left.q1, left.q2, depth - 1);
        DecodeIsParse(h, if ra.hashes == [] then rb else ra, depth - 1);
      }
    }
  }

  lemma MergeOne(h: HashFn, a: Queues, b: Queues, depth: nat)
    requires (a.hashes == []) != (b.hashes == [])
    ensures var q, other := if a.hashes == [] then b else a, if a.hashes == [] then a else b;
      MergeQueues(h, a, b, depth) ==
        match Decode(h, q, depth)
        case Malformed => Failed(BadData)
        case Decoded(n, rest) => Merged(n.hashes, n.txs, n.bits, rest, other)
  {
    hide Decode;
  }

  // ----- When the merged tree is read back

  /** Somewhere both trees go on, one alone has a right subtree, and left of it one will be missing. */
  predicate Stranded(a: Tree, b: Tree)
    decreases a, b
  {
    && !a.Tip? && !b.Tip?
    && (|| Stranded(a.left, b.left)
        || (a.Pair? && b.Pair? && Stranded(a.right, b.right))
        || (a.Pair? != b.Pair? && Open(Together(a.left, b.left))))
  }

  lemma {:induction false} ClosedTogether(a: Tree, b: Tree)
    requires !Open(a) && !Open(b)
    ensures !Open(Together(a, b))
    decreases a, b
  {
    if a.Pair? && b.Pair? {
      ClosedTogether(a.left, b.left);
      ClosedTogether(a.right, b.right);
    }
  }

  lemma {:induction false} ProperTogetherIff(a: Tree, b: Tree)
    requires Proper(a) && Proper(b)
    ensures Proper(Together(a, b)) <==> !Stranded(a, b)
    decreases a, b
  {
    if !a.Tip? && !b.Tip? {
      ProperTogetherIff(a.left, b.left);
      if a.Pair? && b.Pair? {
        ProperTogetherIff(a.right, b.right);
        ClosedTogether(a.left, b.left);
      }
    }
  }

  // ----- The root of the merged tree

  /** The strings that are hashed to find the root of a tree. */
  function HashedIn(h: HashFn, t: Tree): set<Bytes> {
    match t
    case Tip(_, _) => {}
    case Single(l) => HashedIn(h, l) + {RootOf(h, l) + RootOf(h, l)}
    case Pair(l, r) => HashedIn(h, l) + HashedIn(h, r) + {RootOf(h, l) + RootOf(h, r)}
  }

  predicate HashTips(t: Tree) {
    match t
    case Tip(x, _) => |x| == 32
    case Single(l) => HashTips(l)
    case Pair(l, r) => HashTips(l) && HashTips(r)
  }

  lemma RootLength(h: HashFn, t: Tree)
    requires HashTips(t)
    ensures |RootOf(h, t)| == 32
  {
  }

  /** The string under the root of a node. */
  function Under(h: HashFn, t: Tree): Bytes
    requires !t.Tip?
  {
    RootOf(h, t.left) + RootOf(h, if t.Pair? then t.right else t.left)
  }

  lemma RootIsUnder(h: HashFn, t: Tree)
    requires !t.Tip?
    ensures RootOf(h, t) == h(Under(h, t)) && Under(h, t) in HashedIn(h, t)
    ensures HashedIn(h, t.left) <= HashedIn(h, t) && (t.Pair? ==> HashedIn(h, t.right) <= HashedIn(h, t))
  {
  }

  /** Trees with one root keep it when they are laid over each other, or they show a collision. */
  lemma {:induction false} TogetherRoot(h: HashFn, a: Tree, b: Tree) returns (x: Bytes, y: Bytes)
    requires HashTips(a) && HashTips(b) && Agree(h, a, b) && RootOf(h, a) == RootOf(h, b)
    ensures RootOf(h, Together(a, b)) == RootOf(h, a)
         || (Collision(h, x, y) && {x, y} <= HashedIn(h, a) + HashedIn(h, b))
    decreases a, b
  {
    hide NodeOf, HashedIn, Collision;
    x, y := [], [];
    TipRoots(h, a);
    TipRoots(h, b);
    TipRoots(h, Together(a, b));
    if !a.Tip? && !b.Tip? {
      RootIsUnder(h, a);
      RootIsUnder(h, b);
      RootIsUnder(h, Together(a, b));
      x, y := Under(h, a), Under(h, b);
      if x == y {
        Halves(h, a, b);
        x, y := TogetherRoot(h, a.left, b.left);
        if RootOf(h, Together(a.left, b.left)) == RootOf(h, a.left) && a.Pair? && b.Pair? {
          x, y := TogetherRoot(h, a.right, b.right);
        }
      } else {
        Colliding(h, x, y);
      }
    }
  }

  lemma Colliding(h: HashFn, x: Bytes, y: Bytes)
    requires x != y && h(x) == h(y)
    ensures Collision(h, x, y)
  {
  }

  lemma Halves(h: HashFn, a: Tree, b: Tree)
    requires !a.Tip? && !b.Tip? && HashTips(a) && HashTips(b) && Under(h, a) == Under(h, b)
    ensures RootOf(h, a.left) == RootOf(h, b.left)
    ensures RootOf(h, if a.Pair? then a.right else a.left) == RootOf(h, if b.Pair? then b.right else b.left)
  {
    hide NodeOf;
    RootLength(h, a.left);
    RootLength(h, b.left);
    RootLength(h, if a.Pair? then a.right else a.left);
    RootLength(h, if b.Pair? then b.right else b.left);
    assert RootOf(h, a.left) == Under(h, a)[..32] && RootOf(h, b.left) == Under(h, b)[..32];
    assert RootOf(h, if a.Pair? then a.right else a.left) == Under(h, a)[32..];
    assert RootOf(h, if b.Pair? then b.right else b.left) == Under(h, b)[32..];
  }

  // ----- Reading a tree that is not read back

  /** The decoder will take hashes behind this tree for a subtree that is missing in it. */
  predicate Misplaced(t: Tree, rest: Queues) {
    !Proper(t) || (Open(t) && rest.hashes != [])
  }

  /** Where a right subtree is missing, the other tree has one with the root of its left sibling. */
  predicate Echo(h: HashFn, t: Tree, u: Tree)
    decreases t
  {
    && !t.Tip? && !u.Tip?
    && (|| (t.Single? && u.Pair? && t.left == u.left && RootOf(h, u.right) == RootOf(h, t.left))
        || Echo(h, t.left, u.left)
        || (t.Pair? && u.Pair? && Echo(h, t.right, u.right)))
  }

  lemma {:induction false} ParsedTips(q: Queues, depth: nat)
    requires AllHashes(q.hashes) && Parse(q, depth).Parsed?
    ensures HashTips(Parse(q, depth).tree) && AllHashes(Parse(q, depth).rest.hashes)
    decreases depth
  {
    if depth > 0 && q.bits[0] {
      var q0 := Queues(q.hashes, q.bits[1..]);
      ParsedTips(q0, depth - 1);
      var left := Parse(q0, depth - 1);
      if left.rest.hashes != [] {
        ParsedTips(left.rest, depth - 1);
      }
    }
  }

  lemma TipsHashes(h: HashFn, t: Tree)
    requires HashTips(t)
    ensures AllHashes(NodeOf(h, t).hashes)
  {
  }

  /** What is read in place of the left subtree, and that the rest of the tree is read to the right of it. */
  lemma MisreadParts(h: HashFn, t: Tree, depth: nat, rest: Queues) returns (left: Parsed, behind: Queues)
    requires !t.Tip? && Shaped(t, depth)
    requires Parse(Append(Stream(NodeOf(h, t)), rest), depth).Parsed?
    ensures behind == if t.Pair? then Append(Stream(NodeOf(h, t.right)), rest) else rest
    ensures left == Parse(Append(Stream(NodeOf(h, t.left)), behind), depth - 1) && left.Parsed?
    ensures var p := Parse(Append(Stream(NodeOf(h, t)), rest), depth);
      if left.rest.hashes == [] then p == Parsed(Single(left.tree), left.rest)
      else
        var r := Parse(left.rest, depth - 1);
        r.Parsed? && p == Parsed(Pair(left.tree, r.tree), r.rest)
  {
    hide Parse;
    behind := if t.Pair? then Append(Stream(NodeOf(h, t.right)), rest) else rest;
    var q := Append(Stream(NodeOf(h, t.left)), behind);
    if t.Pair? {
      FrameParts(h, NodeOf(h, t.left), NodeOf(h, t.right), rest);
    } else {
      LoneParts(h, NodeOf(h, t.left), rest);
    }
    left := Parse(q, depth - 1);
    InnerUnparsed(q, depth);
    if left.Parsed? {
      ParseInner(q, depth, left.tree, left.rest);
    }
  }

  lemma InnerUnparsed(q: Queues, depth: nat)
    requires depth > 0 && q.hashes != []
    ensures Parse(q, depth - 1).Unparsed? ==> Parse(Queues(q.hashes, [true] + q.bits), depth).Unparsed?
  {
    assert ([true] + q.bits)[1..] == q.bits;
  }

  /** A tree read wrongly has another root, unless there is a collision, or a subtree next to a copy. */
  lemma {:induction false} MisreadRoot(h: HashFn, t: Tree, depth: nat, rest: Queues) returns (x: Bytes, y: Bytes)
    requires Shaped(t, depth) && HashTips(t) && AllHashes(rest.hashes) && Misplaced(t, rest)
    requires Parse(Append(Stream(NodeOf(h, t)), rest), depth).Parsed?
    requires RootOf(h, Parse(Append(Stream(NodeOf(h, t)), rest), depth).tree) == RootOf(h, t)
    ensures var u := Parse(Append(Stream(NodeOf(h, t)), rest), depth).tree;
      Echo(h, t, u) || (Collision(h, x, y) && {x, y} <= HashedIn(h, t) + HashedIn(h, u))
    decreases t
  {
    hide NodeOf, Parse, HashedIn, Collision;
    var q := Append(Stream(NodeOf(h, t)), rest);
    var u := Parse(q, depth).tree;
    var left, behind := MisreadParts(h, t, depth, rest);
    TipsHashes(h, t);
    ConcatHashes(NodeOf(h, t).hashes, rest.hashes);
    ParsedTips(q, depth);
    RootIsUnder(h, t);
    RootIsUnder(h, u);
    x, y := Under(h, t), Under(h, u);
    if x != y {
      Colliding(h, x, y);
      return;
    }
    Halves(h, t, u);
    if t.Pair? {
      TipsHashes(h, t.right);
      ConcatHashes(NodeOf(h, t.right).hashes, rest.hashes);
    }
    if Misplaced(t.left, behind) {
      x, y := MisreadRoot(h, t.left, depth - 1, behind);
    } else {
      ParseBack(h, t.left, depth - 1, behind);
      if t.Pair? {
        x, y := MisreadRoot(h, t.right, depth - 1, rest);
      }
    }
  }

  lemma ConcatHashes(s: seq<Bytes>, t: seq<Bytes>)
    requires AllHashes(s) && AllHashes(t)
    ensures AllHashes(s + t)
  {
  }

  // ----- Merging and reading back

  /** The tree of the merge, and the lists the merge gives. */
  ghost predicate MergedTree(h: HashFn, a: Queues, b: Queues, depth: nat, m: Merged, t: Tree) {
    && Parse(a, depth).Parsed? && Parse(b, depth).Parsed?
    && m == MergeQueues(h, a, b, depth) && m.Merged?
    && t == Together(Parse(a, depth).tree, Parse(b, depth).tree)
  }

  lemma MergedTreeIs(h: HashFn, a: Queues, b: Queues, depth: nat, m: Merged, t: Tree)
    requires MergedTree(h, a, b, depth, m, t)
    ensures Agree(h, Parse(a, depth).tree, Parse(b, depth).tree)
    ensures NodeOf(h, t) == Node(RootOf(h, t), m.hashes, m.txs, m.bits) && Shaped(t, depth)
    ensures Stream(NodeOf(h, t)) == Queues(m.hashes, m.bits)
  {
    hide Parse, MergeQueues, Agree, Together, NodeOf;
    MergeIsTogether(h, a, b, depth);
    ParsedIsProper(a, depth);
    ParsedIsProper(b, depth);
    TogetherShaped(Parse(a, depth).tree, Parse(b, depth).tree, depth);
  }

  /**
   * The merged lists of any two accepted trees are read back as the tree that was merged, exactly if no
   * node is stranded: one whose left subtree misses a right subtree in both trees together, while one of
   * the trees alone has hashes to its right.
   */
  lemma MergedReadsBackIff(h: HashFn, a: Queues, b: Queues, depth: nat, m: Merged, t: Tree)
    requires MergedTree(h, a, b, depth, m, t)
    ensures Parse(Queues(m.hashes, m.bits), depth) == Parsed(t, Queues([], []))
       <==> !Stranded(Parse(a, depth).tree, Parse(b, depth).tree)
  {
    hide Parse, MergeQueues, Together, NodeOf, Stranded;
    MergedTreeIs(h, a, b, depth, m, t);
    ParsedIsProper(a, depth);
    ParsedIsProper(b, depth);
    ProperTogetherIff(Parse(a, depth).tree, Parse(b, depth).tree);
    ReadBackIff(h, t, depth);
  }

  /** Without a stranded node the merged lists decode, whole, to themselves and the common root. */
  lemma MergedKeepsRoot(h: HashFn, a: Queues, b: Queues, depth: nat, m: Merged, t: Tree) returns (x: Bytes, y: Bytes)
    requires MergedTree(h, a, b, depth, m, t) && AllHashes(a.hashes) && AllHashes(b.hashes)
    requires var ta, tb := Parse(a, depth).tree, Parse(b, depth).tree;
      RootOf(h, ta) == RootOf(h, tb) && !Stranded(ta, tb)
    ensures var ta, tb := Parse(a, depth).tree, Parse(b, depth).tree;
      || Decode(h, Queues(m.hashes, m.bits), depth)
         == Decoded(Node(RootOf(h, ta), m.hashes, m.txs, m.bits), Queues([], []))
      || (Collision(h, x, y) && {x, y} <= HashedIn(h, ta) + HashedIn(h, tb))
  {
    hide Parse, MergeQueues, Together, NodeOf, Stranded, HashedIn, Decode, Collision;
    var ta, tb := Parse(a, depth).tree, Parse(b, depth).tree;
    MergedTreeIs(h, a, b, depth, m, t);
    MergedReadsBackIff(h, a, b, depth, m, t);
    DecodeIsParse(h, Queues(m.hashes, m.bits), depth);
    ParsedTips(a, depth);
    ParsedTips(b, depth);
    x, y := TogetherRoot(h, ta, tb);
  }

  /**
   * With a stranded node they do not decode, or to another root, unless there is a collision or the
   * decoder finds, where the merged tree misses a subtree, one with the root of its left sibling.
   */
  lemma StrandedLosesRoot(h: HashFn, a: Queues, b: Queues, depth: nat, m: Merged, t: Tree) returns (x: Bytes, y: Bytes)
    requires MergedTree(h, a, b, depth, m, t) && AllHashes(a.hashes) && AllHashes(b.hashes)
    requires var ta, tb := Parse(a, depth).tree, Parse(b, depth).tree;
      RootOf(h, ta) == RootOf(h, tb) && Stranded(ta, tb)
    ensures var ta, tb, p := Parse(a, depth).tree, Parse(b, depth).tree, Parse(Queues(m.hashes, m.bits), depth);
      || p.Unparsed?
      || RootOf(h, p.tree) != RootOf(h, ta)
      || Echo(h, t, p.tree)
      || (Collision(h, x, y) && {x, y} <= HashedIn(h, ta) + HashedIn(h, tb) + HashedIn(h, t) + HashedIn(h, p.tree))
  {
    hide Parse, MergeQueues, Together, NodeOf, Stranded, HashedIn, Echo, Collision;
    var ta, tb, p := Parse(a, depth).tree, Parse(b, depth).tree, Parse(Queues(m.hashes, m.bits), depth);
    x, y := [], [];
    MergedTreeIs(h, a, b, depth, m, t);
    ParsedIsProper(a, depth);
    ParsedIsProper(b, depth);
    ProperTogetherIff(ta, tb);
    ParsedTips(a, depth);
    ParsedTips(b, depth);
    TogetherTips(ta, tb);
    if p.Parsed? && RootOf(h, p.tree) == RootOf(h, ta) {
      x, y := TogetherRoot(h, ta, tb);
      if RootOf(h, t) == RootOf(h, ta) {
        var end := Queues([], []);
        assert Append(Stream(NodeOf(h, t)), end) == Stream(NodeOf(h, t));
        x, y := MisreadRoot(h, t, depth, end);
      }
    }
  }

  lemma {:induction false} TogetherTips(a: Tree, b: Tree)
    requires HashTips(a) && HashTips(b)
    ensures HashTips(Together(a, b))
    decreases a, b
  {
    if !a.Tip? && !b.Tip? {
      TogetherTips(a.left, b.left);
      if a.Pair? && b.Pair? {
        TogetherTips(a.right, b.right);
      }
    }
  }

  /**
   * The root is lost: two accepted trees with one root, whose merged lists decode to another root, unless
   * two strings given here have one hash.
   */
  lemma MergeMayLoseTheRoot(h: HashFn, x: Bytes)
    requires |x| == 32 && h(x + x) != x
    ensures var r: Bytes, tip, end := h(x + x), Tip(x, true), Queues([], []);
      var ta, tb := Single(Single(tip)), Pair(Tip(r, false), Tip(r, false));
      var a, b := Stream(NodeOf(h, ta)), Stream(NodeOf(h, tb));
      var m := MergeQueues(h, a, b, 2);
      && Parse(a, 2) == Parsed(ta, end) && Parse(b, 2) == Parsed(tb, end)
      && Stranded(ta, tb) && RootOf(h, ta) == RootOf(h, tb) == h(r + r)
      && m.Merged? && m.hashes == [x, r] && m.bits == [true, true, true, false]
      && Decode(h, Queues(m.hashes, m.bits), 2).Decoded?
      && (|| Root(h, Queues(m.hashes, m.bits), 2) != h(r + r)
          || Collision(h, r + r, h(x + r) + h(x + r))
          || Collision(h, x + x, x + r))
  {
    hide Parse, Decode, MergeQueues, NodeOf, Agree, Stranded, Together, Shaped, Proper;
    var r: Bytes, tip, pruned, end := h(x + x), Tip(x, true), Tip(h(x + x), false), Queues([], []);
    var ta, tb := Single(Single(tip)), Pair(pruned, pruned);
    var t, read := Pair(Single(tip), pruned), Single(Pair(tip, pruned));
    PrunedShapes(x, r);
    PrunedNodes(h, x);
    ReadBackIff(h, ta, 2);
    ReadBackIff(h, tb, 2);
    ReadBackIff(h, read, 2);
    MergeIsTogether(h, Stream(NodeOf(h, ta)), Stream(NodeOf(h, tb)), 2);
    DecodeIsParse(h, Stream(NodeOf(h, read)), 2);
    DoubledApart(r, h(x + r));
    DoubledApart(x, r);
  }

  lemma PrunedShapes(x: Bytes, r: Bytes)
    ensures var tip, pruned := Tip(x, true), Tip(r, false);
      var ta, tb, read := Single(Single(tip)), Pair(pruned, pruned), Single(Pair(tip, pruned));
      && Shaped(ta, 2) && Shaped(tb, 2) && Shaped(read, 2) && Proper(ta) && Proper(tb) && Proper(read)
      && Stranded(ta, tb) && Together(ta, tb) == Pair(Single(tip), pruned)
  {
    var tip, pruned := Tip(x, true), Tip(r, false);
    var single, pair := Single(tip), Pair(tip, pruned);
    assert Shaped(tip, 0) && Shaped(single, 1) && Shaped(pair, 1);
    assert Together(single, pruned) == single && Open(single);
  }

  lemma PrunedNodes(h: HashFn, x: Bytes)
    ensures var r: Bytes, tip, pruned := h(x + x), Tip(x, true), Tip(h(x + x), false);
      var ta, tb := Single(Single(tip)), Pair(pruned, pruned);
      var t, read := Pair(Single(tip), pruned), Single(Pair(tip, pruned));
      && Agree(h, ta, tb) && RootOf(h, ta) == RootOf(h, tb) == h(r + r)
      && RootOf(h, read) == h(h(x + r) + h(x + r))
      && NodeOf(h, t).hashes == NodeOf(h, read).hashes == [x, r]
      && NodeOf(h, t).bits == NodeOf(h, read).bits == [true, true, true, false]
  {
    var r: Bytes, tip, pruned := h(x + x), Tip(x, true), Tip(h(x + x), false);
    var single, pair := Single(tip), Pair(tip, pruned);
    assert NodeOf(h, pruned) == LeafNode(r, false) && NodeOf(h, tip) == LeafNode(x, true);
    assert NodeOf(h, single) == Node(r, [x], [x], [true, true]);
    assert NodeOf(h, pair) == Node(h(x + r), [x, r], [x], [true, true, false]);
    assert NodeOf(h, Single(single)) == Lone(h, NodeOf(h, single));
    assert Agree(h, single, pruned);
  }

  lemma DoubledApart(a: Bytes, b: Bytes)
    requires |a| == |b|
    ensures a != b ==> a + a != b + b && a + a != a + b
  {
    assert (a + a)[..|a|] == a && (a + a)[|a|..] == a;
    assert (b + b)[..|a|] == b && (a + b)[|a|..] == b;
  }

  /**
   * Such a copy can save the root, without any collision: here everything the program keeps is read back,
   * and only the places of the transactions are others.
   */
  lemma StrandedMayKeepRoot(h: HashFn, c: Bytes)
    ensures var r: Bytes, tip, end := h(c + c), Tip(c, true), Queues([], []);
      var ta, tb := Single(Single(tip)), Pair(Tip(r, false), Pair(tip, tip));
      var a, b := Stream(NodeOf(h, ta)), Stream(NodeOf(h, tb));
      var m := MergeQueues(h, a, b, 2);
      && Parse(a, 2) == Parsed(ta, end) && Parse(b, 2) == Parsed(tb, end)
      && Stranded(ta, tb) && RootOf(h, ta) == RootOf(h, tb) == h(r + r)
      && m.Merged?
      && Decode(h, Queues(m.hashes, m.bits), 2) == Decoded(Node(h(r + r), m.hashes, m.txs, m.bits), end)
      && Parse(Queues(m.hashes, m.bits), 2) == Parsed(Pair(Pair(tip, tip), Single(tip)), end)
  {
    hide Parse, Decode, MergeQueues, RootOf;
    var r: Bytes, tip, end := h(c + c), Tip(c, true), Queues([], []);
    var single, pair := Single(tip), Pair(tip, tip);
    var ta, tb := Single(single), Pair(Tip(r, false), pair);
    var t, read := Pair(single, pair), Pair(pair, single);
    assert NodeOf(h, single) == Node(r, [c], [c], [true, true]);
    assert NodeOf(h, pair) == Node(r, [c, c], [c, c], [true, true, true]);
    SmallShapes(c, r);
    ReadBackIff(h, ta, 2);
    ReadBackIff(h, tb, 2);
    ReadBackIff(h, read, 2);
    var a, b := Stream(NodeOf(h, ta)), Stream(NodeOf(h, tb));
    MergeIsTogether(h, a, b, 2);
    AgreeSmall(h, c);
    DecodeIsParse(h, Stream(NodeOf(h, read)), 2);
    assert NodeOf(h, t) == NodeOf(h, read)
        == Node(h(r + r), [c, c, c], [c, c, c], [true, true, true, true, true, true]);
  }

  lemma SmallShapes(c: Bytes, r: Bytes)
    ensures var tip := Tip(c, true);
      var ta, tb, read := Single(Single(tip)), Pair(Tip(r, false), Pair(tip, tip)), Pair(Pair(tip, tip), Single(tip));
      && Shaped(ta, 2) && Shaped(tb, 2) && Shaped(read, 2) && Proper(ta) && Proper(tb) && Proper(read)
      && Stranded(ta, tb) && Together(ta, tb) == Pair(Single(tip), Pair(tip, tip))
  {
    var tip := Tip(c, true);
    var single, pair := Single(tip), Pair(tip, tip);
    assert Shaped(tip, 0) && Shaped(single, 1) && Shaped(pair, 1);
    assert Together(single, Tip(r, false)) == single && Open(single) && !Open(pair);
  }

  lemma AgreeSmall(h: HashFn, c: Bytes)
    ensures var r: Bytes, tip := h(c + c), Tip(c, true);
      var ta, tb := Single(Single(tip)), Pair(Tip(r, false), Pair(tip, tip));
      && Agree(h, ta, tb) && RootOf(h, ta) == RootOf(h, tb) == h(r + r)
  {
    var r: Bytes, tip := h(c + c), Tip(c, true);
    assert NodeOf(h, tip).root == c;
    assert RootOf(h, Single(tip)) == r && RootOf(h, Pair(tip, tip)) == r;
    assert Agree(h, Single(tip), Tip(r, false));
    assert NodeOf(h, Tip(r, false)).root == r;
    assert NodeOf(h, Single(Single(tip))) == Lone(h, NodeOf(h, Single(tip)));
    assert NodeOf(h, Pair(Tip(r, false), Pair(tip, tip)))
        == Join(h, NodeOf(h, Tip(r, false)), NodeOf(h, Pair(tip, tip)));
  }
}
