/**
 The vector-based Merkle root builder of src/merkle_tree_vec.rs.

 The hash (Keccak-256 in the source) is an arbitrary function `H: string -> string`
 handed in by the caller; every fact proved here holds for every such function.
 Digests are strings and `format!("{}{}", a, b)` is string concatenation `a + b`.
 */
module MerkleVec {
  import opened Levels

  /** `keccak256(&format!("{}{}", left, right))`: hash the concatenation of two digests. */
  function HashPair(H: string -> string): (string, string) -> string
  {
    (left: string, right: string) => H(left + right)
  }

  /** Level 0: every leaf hashed, in the original order. */
  function HashLeaves(H: string -> string, leaves: seq<string>): (hashed: seq<string>)
    ensures |hashed| == |leaves|
    ensures forall i :: 0 <= i < |leaves| ==> hashed[i] == H(leaves[i])
  {
    if leaves == [] then [] else [H(leaves[0])] + HashLeaves(H, leaves[1..])
  }

  /** The root `MerkleTreeVec::new` stores for a non-empty leaf list. */
  function Root(H: string -> string, leaves: seq<string>): string
    requires |leaves| > 0
  {
    Top(HashLeaves(H, leaves), HashPair(H))
  }

  /** The fold of `in_merkletree`: the running digest is always the left operand. */
  function FoldPath(H: string -> string, running: string, path: seq<string>): string
    decreases |path|
  {
    if path == [] then running else FoldPath(H, H(running + path[0]), path[1..])
  }

  /** The body of `MerkleTreeVec::new` that computes the root: the first pass over the
      hashed leaves, the early return for a single digest, then the `while len > 1` loop. */
  method ComputeRoot(H: string -> string, leaves: seq<string>) returns (root: string)
    requires |leaves| > 0
    ensures root == Root(H, leaves)
  {
    var hashed := HashLeaves(H, leaves);
    var upper := PairLevel(hashed, HashPair(H));
    if |upper| == 1 {
      return upper[0];
    }
    while |upper| > 1
      invariant |upper| >= 1
      invariant Collapse(upper, HashPair(H)) == Root(H, leaves)
      decreases |upper|
    {
      PairsShrinks(upper, HashPair(H));
      upper := PairLevel(upper, HashPair(H));
    }
    root := upper[0];
  }

  /** The caller's `Vec<String>` handed to `push_to_initial` by mutable reference. */
  class LeafVec {
    var items: seq<string>

    constructor (items: seq<string>)
      ensures this.items == items
    {
      this.items := items;
    }
  }

  /** `MerkleTreeVec { root, initial_leaves }`, with the hash it was built with. */
  class MerkleTreeVec {
    const hash: string -> string
    var root: string
    var initialLeaves: seq<string>

    /** The root is always the root of the stored leaves, which are never empty. */
    ghost predicate Valid()
      reads this
    {
      |initialLeaves| > 0 && root == Root(hash, initialLeaves)
    }

    /** `MerkleTreeVec::new(initial_leaves)`; an empty list panics in the source. */
    constructor (hash: string -> string, initialLeaves: seq<string>)
      requires |initialLeaves| > 0
      ensures Valid()
      ensures this.hash == hash && this.initialLeaves == initialLeaves
      ensures root == Root(hash, initialLeaves)
    {
      var r := ComputeRoot(hash, initialLeaves);
      this.hash := hash;
      this.root := r;
      this.initialLeaves := initialLeaves;
    }

    /** `push_to_initial`: append the new leaves (draining the caller's vector) and
        rebuild the whole tree from scratch. */
    method PushToInitial(newLeaves: LeafVec)
      requires Valid()
      modifies this, newLeaves
      ensures Valid()
      ensures initialLeaves == old(initialLeaves) + old(newLeaves.items)
      ensures root == Root(hash, old(initialLeaves) + old(newLeaves.items))
      ensures newLeaves.items == []
    {
      var combined := initialLeaves + newLeaves.items;
      newLeaves.items := [];
      var r := ComputeRoot(hash, combined);
      root, initialLeaves := r, combined;
    }

    /** `in_merkletree`: hash the first element, fold the rest in from the right and
        compare with the stored root. An empty input panics in the source. */
    method InMerkleTree(path: seq<string>) returns (found: bool)
      requires |path| > 0
      ensures found <==> FoldPath(hash, hash(path[0]), path[1..]) == root
    {
      var checkRoot := hash(path[0]);
      for i := 1 to |path|
        invariant FoldPath(hash, checkRoot, path[i..]) == FoldPath(hash, hash(path[0]), path[1..])
      {
        assert path[i..][1..] == path[i + 1..];
        checkRoot := hash(checkRoot + path[i]);
      }
      found := checkRoot == root;
    }
  }

  /** The sibling of the leftmost node at each level, leaf level first: the next element,
      or the node itself when it is alone on its level. */
  function LeftSiblings(H: string -> string, level: seq<string>): seq<string>
    requires |level| >= 1
    decreases |level|
  {
    var next := Pairs(level, HashPair(H));
    var sibling := level[RightOf(|level|, 0)];
    if |next| == 1 then [sibling]
    else
      PairsShrinks(level, HashPair(H));
      [sibling] + LeftSiblings(H, next)
  }

  /** The input `in_merkletree` expects for the first leaf: the leaf itself, then its siblings. */
  function LeftmostPath(H: string -> string, leaves: seq<string>): seq<string>
    requires |leaves| > 0
  {
    [leaves[0]] + LeftSiblings(H, HashLeaves(H, leaves))
  }

  /** Folding the leftmost node of a level with its siblings reaches the root of that level. */
  lemma {:induction false} LeftSiblingsReachTop(H: string -> string, level: seq<string>)
    requires |level| >= 1
    ensures FoldPath(H, level[0], LeftSiblings(H, level)) == Top(level, HashPair(H))
    decreases |level|
  {
    var next := Pairs(level, HashPair(H));
    PairsShrinks(level, HashPair(H));
    assert next[0] == H(level[0] + level[RightOf(|level|, 0)]);
    if |next| > 1 {
      LeftSiblingsReachTop(H, next);
    }
  }

  /** The path of the first leaf is accepted by the fold of `in_merkletree`. */
  lemma LeftmostPathChecks(H: string -> string, leaves: seq<string>)
    requires |leaves| > 0
    ensures FoldPath(H, H(LeftmostPath(H, leaves)[0]), LeftmostPath(H, leaves)[1..]) == Root(H, leaves)
  {
    LeftSiblingsReachTop(H, HashLeaves(H, leaves));
  }

  /** With no leaves the level the root would be popped from is empty: the source's
      `pop().unwrap()` panics, which is why building requires a leaf. */
  lemma NoLeavesNoRoot(H: string -> string)
    ensures Pairs(HashLeaves(H, []), HashPair(H)) == []
  {
  }

  /** One leaf is combined once with itself. */
  lemma RootOfOneLeaf(H: string -> string, x: string)
    ensures Root(H, [x]) == H(H(x) + H(x))
  {
  }

  /** Two leaves are combined once, in order. */
  lemma RootOfTwoLeaves(H: string -> string, d: string, e: string)
    ensures Root(H, [d, e]) == H(H(d) + H(e))
  {
  }

  /** Pushing `[e]` onto a tree of `[d]` gives the root of `[d, e]`. */
  method PushScenario(H: string -> string, d: string, e: string) returns (root: string)
    ensures root == H(H(d) + H(e))
  {
    var tree := new MerkleTreeVec(H, [d]);
    var more := new LeafVec([e]);
    tree.PushToInitial(more);
    assert tree.initialLeaves == [d, e];
    RootOfTwoLeaves(H, d, e);
    root := tree.root;
  }

  /** The leftmost leaf of `[d, e, f, g]` is checked with `[d, H(e), H(H(f) + H(g))]`. */
  method InMerkleTreeScenario(H: string -> string, d: string, e: string, f: string, g: string)
    returns (found: bool)
    ensures found
  {
    var leaves := [d, e, f, g];
    var tree := new MerkleTreeVec(H, leaves);
    var path := [d, H(e), H(H(f) + H(g))];
    var level0 := HashLeaves(H, leaves);
    var level1 := Pairs(level0, HashPair(H));
    assert level1 == [H(H(d) + H(e)), H(H(f) + H(g))];
    assert |Pairs(level1, HashPair(H))| == 1;
    assert LeftSiblings(H, level1) == [H(H(f) + H(g))];
    assert LeftSiblings(H, level0) == [H(e), H(H(f) + H(g))];
    assert LeftmostPath(H, leaves) == path;
    LeftmostPathChecks(H, leaves);
    found := tree.InMerkleTree(path);
  }
}
