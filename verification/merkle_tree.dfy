/**
 The node-tree Merkle builder of src/merkle_tree.rs.

 It applies the same level rule as the vector builder, but every combined value is a
 `Node` that keeps its two children, so the result is a whole tree rather than a digest.
 The hash is again an arbitrary `H: string -> string`.
 */
module MerkleNodes {
  import opened Wrappers
  import opened Levels
  import MerkleVec

  /** `Node { hash, left_node, right_node }`; a `Box` is just the value it owns. */
  datatype Node = Node(hash: string, leftNode: Option<Node>, rightNode: Option<Node>)

  /** `MerkleTree { root }`. */
  datatype MerkleTree = MerkleTree(root: Option<Node>)

  /** A bottom node: a leaf digest with no children. */
  function LeafNode(hash: string): Node
  {
    Node(hash, None, None)
  }

  /** A parent over two nodes whose hash is `H(left.hash ++ right.hash)`. */
  function ParentOf(H: string -> string): (Node, Node) -> Node
  {
    (left: Node, right: Node) => Node(H(left.hash + right.hash), Some(left), Some(right))
  }

  /** One bottom node per digest, in order. */
  function LeafNodes(hashes: seq<string>): (nodes: seq<Node>)
    ensures |nodes| == |hashes|
    ensures forall i :: 0 <= i < |hashes| ==> nodes[i] == LeafNode(hashes[i])
  {
    if hashes == [] then [] else [LeafNode(hashes[0])] + LeafNodes(hashes[1..])
  }

  /** The root node `MerkleTree::new` returns for a non-empty leaf list. */
  function RootNode(H: string -> string, leaves: seq<string>): Node
    requires |leaves| > 0
  {
    Top(LeafNodes(MerkleVec.HashLeaves(H, leaves)), ParentOf(H))
  }

  /** The digests of a level of nodes. */
  function Hashes(nodes: seq<Node>): (hashes: seq<string>)
    ensures |hashes| == |nodes|
    ensures forall i :: 0 <= i < |nodes| ==> hashes[i] == nodes[i].hash
  {
    if nodes == [] then [] else [nodes[0].hash] + Hashes(nodes[1..])
  }

  /** The first pass of `MerkleTree::new`: for every chunk of two digests, two childless
      nodes (the right one a copy of the left when the chunk has one digest) under a parent. */
  method BuildBottom(H: string -> string, hashed: seq<string>) returns (upper: seq<Node>)
    ensures upper == Pairs(LeafNodes(hashed), ParentOf(H))
  {
    ghost var leaves := LeafNodes(hashed);
    upper := [];
    var i := 0;
    while i < |hashed|
      invariant 0 <= i <= |hashed| + 1
      invariant i % 2 == 0
      invariant |upper| == i / 2
      invariant forall k :: 0 <= k < |upper| ==>
        upper[k] == ParentOf(H)(leaves[2 * k], leaves[RightOf(|leaves|, k)])
    {
      var right := if i + 1 < |hashed| then hashed[i + 1] else hashed[i];
      var childLeft := Node(hashed[i], None, None);
      var childRight := Node(right, None, None);
      var combined := H(hashed[i] + right);
      upper := upper + [Node(combined, Some(childLeft), Some(childRight))];
      i := i + 2;
    }
  }

  /** `MerkleTree::new`: the first pass, the early return for a single node, then the
      `while len > 1` loop pairing whole nodes. An empty list panics in the source. */
  method New(H: string -> string, initialLeaves: seq<string>) returns (tree: MerkleTree)
    requires |initialLeaves| > 0
    ensures tree.root == Some(RootNode(H, initialLeaves))
  {
    var hashed := MerkleVec.HashLeaves(H, initialLeaves);
    var upper := BuildBottom(H, hashed);
    if |upper| == 1 {
      return MerkleTree(Some(upper[0]));
    }
    while |upper| > 1
      invariant |upper| >= 1
      invariant Collapse(upper, ParentOf(H)) == RootNode(H, initialLeaves)
      decreases |upper|
    {
      PairsShrinks(upper, ParentOf(H));
      upper := PairLevel(upper, ParentOf(H));
    }
    tree := MerkleTree(Some(upper[0]));
  }

  // ---------------------------------------------------------------------------------
  // The root hash is the vector builder's root.

  lemma PairsHashes(H: string -> string, level: seq<Node>)
    ensures Hashes(Pairs(level, ParentOf(H))) == Pairs(Hashes(level), MerkleVec.HashPair(H))
  {
  }

  lemma {:induction false} CollapseHashes(H: string -> string, level: seq<Node>)
    requires |level| >= 1
    ensures Collapse(level, ParentOf(H)).hash == Collapse(Hashes(level), MerkleVec.HashPair(H))
    decreases |level|
  {
    if |level| > 1 {
      PairsShrinks(level, ParentOf(H));
      PairsHashes(H, level);
      CollapseHashes(H, Pairs(level, ParentOf(H)));
    }
  }

  /** Both drafts commit to the same root for the same leaves. */
  lemma RootHashMatchesVec(H: string -> string, leaves: seq<string>)
    requires |leaves| > 0
    ensures RootNode(H, leaves).hash == MerkleVec.Root(H, leaves)
  {
    var hashed := MerkleVec.HashLeaves(H, leaves);
    var bottom := LeafNodes(hashed);
    assert Hashes(bottom) == hashed;
    PairsHashes(H, bottom);
    PairsShrinks(bottom, ParentOf(H));
    CollapseHashes(H, Pairs(bottom, ParentOf(H)));
  }

  // ---------------------------------------------------------------------------------
  // Shape: a perfect binary tree whose internal hashes are the hashes of their children.

  /** Length of the leftmost branch. */
  function Depth(n: Node): nat
  {
    match n.leftNode
    case None => 0
    case Some(l) => 1 + Depth(l)
  }

  /** `n` has every bottom node at depth `d` below it, every other node has two children,
      and every internal node's hash is `H(left.hash ++ right.hash)`. */
  ghost predicate Shaped(H: string -> string, n: Node, d: nat)
  {
    if d == 0 then n.leftNode.None? && n.rightNode.None?
    else
      && n.leftNode.Some? && n.rightNode.Some?
      && n.hash == H(n.leftNode.value.hash + n.rightNode.value.hash)
      && Shaped(H, n.leftNode.value, d - 1)
      && Shaped(H, n.rightNode.value, d - 1)
  }

  lemma {:induction false} ShapedDepth(H: string -> string, n: Node, d: nat)
    requires Shaped(H, n, d)
    ensures Depth(n) == d
  {
    if d > 0 {
      ShapedDepth(H, n.leftNode.value, d - 1);
    }
  }

  lemma {:induction false} CollapseShaped(H: string -> string, level: seq<Node>, d: nat)
    requires |level| >= 1
    requires forall i :: 0 <= i < |level| ==> Shaped(H, level[i], d)
    ensures Shaped(H, Collapse(level, ParentOf(H)), Depth(Collapse(level, ParentOf(H))))
    ensures Depth(Collapse(level, ParentOf(H))) >= d
    decreases |level|
  {
    if |level| == 1 {
      ShapedDepth(H, level[0], d);
    } else {
      var next := Pairs(level, ParentOf(H));
      PairsShrinks(level, ParentOf(H));
      forall i | 0 <= i < |next| ensures Shaped(H, next[i], d + 1) {
        assert next[i] == ParentOf(H)(level[2 * i], level[RightOf(|level|, i)]);
      }
      CollapseShaped(H, next, d + 1);
    }
  }

  /** The built tree is perfect, at least one level tall, and correctly hashed throughout. */
  lemma RootNodeIsPerfect(H: string -> string, leaves: seq<string>)
    requires |leaves| > 0
    ensures Shaped(H, RootNode(H, leaves), Depth(RootNode(H, leaves)))
    ensures Depth(RootNode(H, leaves)) >= 1
  {
    var bottom := LeafNodes(MerkleVec.HashLeaves(H, leaves));
    var next := Pairs(bottom, ParentOf(H));
    PairsShrinks(bottom, ParentOf(H));
    forall i | 0 <= i < |next| ensures Shaped(H, next[i], 1) {
      assert next[i] == ParentOf(H)(bottom[2 * i], bottom[RightOf(|bottom|, i)]);
    }
    CollapseShaped(H, next, 1);
  }

  // ---------------------------------------------------------------------------------
  // Bottom nodes read left to right.

  /** The digests of the childless nodes below `n`, left to right. */
  function Fringe(n: Node): seq<string>
  {
    if n.leftNode.None? && n.rightNode.None? then [n.hash]
    else
      (if n.leftNode.Some? then Fringe(n.leftNode.value) else [])
      + (if n.rightNode.Some? then Fringe(n.rightNode.value) else [])
  }

  /** The fringes of a level of nodes, concatenated. */
  function LevelFringe(level: seq<Node>): seq<string>
  {
    if level == [] then [] else Fringe(level[0]) + LevelFringe(level[1..])
  }

  lemma LevelFringeCons(n: Node, level: seq<Node>)
    ensures LevelFringe([n] + level) == Fringe(n) + LevelFringe(level)
  {
    assert ([n] + level)[1..] == level;
  }

  lemma ParentFringe(H: string -> string, left: Node, right: Node)
    ensures Fringe(ParentOf(H)(left, right)) == Fringe(left) + Fringe(right)
  {
  }

  /** The fringe of the node a level's odd last element is duplicated into, if any. */
  function OddTail(level: seq<Node>): seq<string>
  {
    if |level| % 2 == 1 then Fringe(level[|level| - 1]) else []
  }

  lemma OddTailDrop(level: seq<Node>)
    requires |level| >= 2
    ensures OddTail(level[2..]) == OddTail(level)
  {
    var rest := level[2..];
    if |rest| > 0 {
      assert rest[|rest| - 1] == level[|level| - 1];
    }
  }

  lemma LevelFringeUnfold(level: seq<Node>)
    requires |level| >= 1
    ensures LevelFringe(level) == Fringe(level[0]) + LevelFringe(level[1..])
  {
  }

  lemma Reassociate(a: seq<string>, b: seq<string>, c: seq<string>, d: seq<string>)
    ensures (a + b) + (c + d) == (a + (b + c)) + d
  {
  }

  lemma FringeStep(level: seq<Node>, parent: Node, up: seq<Node>, upRest: seq<Node>)
    requires |level| >= 2
    requires Fringe(parent) == Fringe(level[0]) + Fringe(level[1])
    requires up == [parent] + upRest
    requires LevelFringe(upRest) == LevelFringe(level[2..]) + OddTail(level[2..])
    ensures LevelFringe(up) == LevelFringe(level) + OddTail(level)
  {
    LevelFringeCons(parent, upRest);
    LevelFringeUnfold(level);
    LevelFringeUnfold(level[1..]);
    assert level[1..][1..] == level[2..];
    OddTailDrop(level);
    Reassociate(Fringe(level[0]), Fringe(level[1]), LevelFringe(level[2..]), OddTail(level));
  }

  /** A pass keeps the fringe of the level and, for an odd level, repeats the fringe of
      its last node (the duplicated right child). */
  lemma {:induction false} PairsFringe(H: string -> string, level: seq<Node>)
    ensures LevelFringe(Pairs(level, ParentOf(H))) == LevelFringe(level) + OddTail(level)
    decreases |level|
  {
    var c := ParentOf(H);
    if |level| == 1 {
      assert Pairs(level, c) == [c(level[0], level[0])];
      LevelFringeCons(c(level[0], level[0]), []);
      LevelFringeCons(level[0], []);
      assert [level[0]] + [] == level;
      ParentFringe(H, level[0], level[0]);
    } else if |level| >= 2 {
      PairsCons(level, c);
      PairsFringe(H, level[2..]);
      ParentFringe(H, level[0], level[1]);
      FringeStep(level, c(level[0], level[1]), Pairs(level, c), Pairs(level[2..], c));
    }
  }

  lemma {:induction false} CollapseFringe(H: string -> string, level: seq<Node>)
    requires |level| >= 1
    ensures LevelFringe(level) <= Fringe(Collapse(level, ParentOf(H)))
    decreases |level|
  {
    if |level| == 1 {
      assert LevelFringe(level) == Fringe(level[0]) + LevelFringe([]);
    } else {
      PairsShrinks(level, ParentOf(H));
      PairsFringe(H, level);
      CollapseFringe(H, Pairs(level, ParentOf(H)));
    }
  }

  lemma {:induction false} LeafNodesFringe(hashes: seq<string>)
    ensures LevelFringe(LeafNodes(hashes)) == hashes
  {
    if hashes != [] {
      assert LeafNodes(hashes)[1..] == LeafNodes(hashes[1..]);
      LeafNodesFringe(hashes[1..]);
    }
  }

  lemma PrefixOfAppend(a: seq<string>, b: seq<string>)
    ensures a <= a + b
  {
    assert (a + b)[..|a|] == a;
  }

  lemma PrefixTransitive(a: seq<string>, b: seq<string>, c: seq<string>)
    requires a <= b && b <= c
    ensures a <= c
  {
    assert c[..|b|][..|a|] == c[..|a|];
  }

  /** Reading the bottom nodes left to right starts with the hashed leaves, in order. */
  lemma FringeStartsWithHashedLeaves(H: string -> string, leaves: seq<string>)
    requires |leaves| > 0
    ensures MerkleVec.HashLeaves(H, leaves) <= Fringe(RootNode(H, leaves))
  {
    var hashed := MerkleVec.HashLeaves(H, leaves);
    var bottom := LeafNodes(hashed);
    var next := Pairs(bottom, ParentOf(H));
    LeafNodesFringe(hashed);
    PairsFringe(H, bottom);
    PrefixOfAppend(LevelFringe(bottom), OddTail(bottom));
    PairsShrinks(bottom, ParentOf(H));
    CollapseFringe(H, next);
    PrefixTransitive(hashed, LevelFringe(next), Fringe(Collapse(next, ParentOf(H))));
  }

  // ---------------------------------------------------------------------------------
  // The scenarios of the source's tests.

  /** With no leaves the first pass yields no node, and `upper_children.pop().unwrap()`
      panics in the source. */
  lemma NoLeavesNoRootNode(H: string -> string)
    ensures Pairs(LeafNodes(MerkleVec.HashLeaves(H, [])), ParentOf(H)) == []
  {
  }

  /** One leaf: a root over two copies of the same bottom node. */
  lemma RootNodeOfOneLeaf(H: string -> string, d: string)
    ensures RootNode(H, [d]) == Node(H(H(d) + H(d)), Some(LeafNode(H(d))), Some(LeafNode(H(d))))
  {
  }

  /** Two leaves: the root hashes the two leaf digests in order. */
  lemma RootNodeOfTwoLeaves(H: string -> string, d: string, e: string)
    ensures RootNode(H, [d, e]).hash == H(H(d) + H(e))
  {
  }
}
