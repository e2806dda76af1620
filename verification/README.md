# Merkle roots and a binary search tree, modelled in Dafny

This project models the three components of the `merkletree_in_rust` repository:

- `MerkleTreeVec` (`src/merkle_tree_vec.rs`) hashes every leaf. It then repeatedly pairs
  adjacent digests into a shorter vector, duplicating the last digest of an odd level, until
  one digest remains. That digest is the root. The first pass always runs, so a single leaf is
  combined once with itself. `push_to_initial` appends leaves and rebuilds from scratch.
  `in_merkletree` hashes the first element of its input and folds the rest in, always with the
  running digest on the left, then compares the result with the root.
- `MerkleTree` (`src/merkle_tree.rs`) applies the same level rule, but keeps the `Node` tree:
  childless bottom nodes holding leaf digests, and parents whose hash is `H(left.hash ++ right.hash)`.
- `Tree` (`src/binary_tree.rs`) is an `i32` binary search tree. Insertion is written as a loop
  over a one-element worklist and as a recursion. Equal keys go right.

The hash (Keccak-256 in the repository) is a parameter `H: string -> string`. Every property holds
for every such function. `format!("{}{}", a, b)` is string concatenation `a + b`.

Files:

- `levels.dfy` (module `Levels`): the level rule, generic in the element type. `Pairs` is one
  `chunks(2)` pass, `Collapse` is the `while len > 1` loop, and `Top` is the first pass followed
  by `Collapse`. `PairLevel` is the push loop, proved to compute `Pairs`.
- `merkle_tree_vec.dfy` (module `MerkleVec`): the `MerkleTreeVec` class and its root function.
  It also holds the `in_merkletree` fold and the proof that the leftmost leaf's sibling path is
  accepted.
- `merkle_tree.dfy` (module `MerkleNodes`): the `Node` datatype and the builder loops. It proves
  that the tree's root hash is the vector root, that the tree is perfect and correctly hashed,
  and that its bottom row starts with the hashed leaves.
- `binary_tree.dfy` (module `BinaryTree`): the node datatype, `insert_recursive` as a function,
  and the `Tree` class whose iterative insertion is proved equal to it. It also proves order
  preservation, the multiset of items, and that the new leaf sits at the end of the search path.
- `wrappers.dfy` (module `Wrappers`): `Option`.

## Model

| member | source | states |
|---|---|---|
| `Levels.RightOf` | src/merkle_tree_vec.rs:31-37 | a chunk's right partner is the next element, or the left element itself when that is the odd last one; it is always inside the level |
| `Levels.Pairs` | src/merkle_tree_vec.rs:54-66 | the next level has `ceil(n/2)` entries; entry `i` combines `L[2i]` with `L[2i+1]`, or with `L[2i]` itself past the end |
| `Levels.PairsShrinks` | src/merkle_tree_vec.rs:51-68 | a pass leaves at least one entry and strictly shrinks every level of two or more, so the `while len > 1` loop terminates |
| `Levels.PairLevel` | src/merkle_tree_vec.rs:52-67 | the `for chunk in chunks(2)` push loop builds exactly `Pairs` of its level |
| `MerkleVec.HashLeaves` | src/merkle_tree_vec.rs:24-28 | level 0 has one digest per leaf, `H(leaf)`, in the original order |
| `MerkleVec.ComputeRoot` | src/merkle_tree_vec.rs:21-73 | the first pass, the early single-digest return and the `while` loop compute the root function of the leaves |
| `MerkleVec.MerkleTreeVec.constructor` | src/merkle_tree_vec.rs:21-74 | `new` stores the leaf list unchanged together with its root; it needs a non-empty list |
| `MerkleVec.MerkleTreeVec.PushToInitial` | src/merkle_tree_vec.rs:76-81 | the stored leaves become `old ++ new`; the root becomes the root of `old ++ new`; the caller's vector is left empty |
| `MerkleVec.MerkleTreeVec.InMerkleTree` | src/merkle_tree_vec.rs:83-93 | returns true exactly when folding `(c, h) => H(c ++ h)` from `H(p[0])` over `p[1..]` yields the stored root |
| `MerkleVec.LeftSiblingsReachTop` | src/merkle_tree_vec.rs:83-93 | folding the leftmost digest of a level with its sibling at every level, lowest first, reaches that level's root |
| `MerkleVec.LeftmostPathChecks` | src/merkle_tree_vec.rs:143-161 | for every non-empty leaf list, the first leaf followed by its siblings passes the `in_merkletree` fold |
| `MerkleVec.NoLeavesNoRoot` | src/merkle_tree_vec.rs:22-51 | with zero leaves the level the root is popped from is empty, which is the panicking case |
| `MerkleVec.RootOfOneLeaf` | src/merkle_tree_vec.rs:116-126 | one leaf `x` gives root `H(H(x) ++ H(x))` |
| `MerkleVec.RootOfTwoLeaves` | src/merkle_tree_vec.rs:102-115 | two leaves `d, e` give root `H(H(d) ++ H(e))` |
| `MerkleVec.PushScenario` | src/merkle_tree_vec.rs:127-141 | pushing `[e]` onto a tree of `[d]` yields root `H(H(d) ++ H(e))` |
| `MerkleVec.InMerkleTreeScenario` | src/merkle_tree_vec.rs:143-161 | `[d, H(e), H(H(f) ++ H(g))]` is accepted by the tree of `[d, e, f, g]` |
| `MerkleNodes.LeafNodes` | src/merkle_tree.rs:62-72 | bottom nodes hold the leaf digests in order and have no children |
| `MerkleNodes.BuildBottom` | src/merkle_tree.rs:55-86 | the first pass builds, for every chunk, two childless nodes under a parent hashed over them, the right a copy of the left for a lone digest |
| `MerkleNodes.New` | src/merkle_tree.rs:41-125 | `MerkleTree::new` returns `Some` of the root node given by the level rule over parent nodes; it needs a non-empty list |
| `MerkleNodes.PairsHashes` | src/merkle_tree.rs:97-118 | the hashes of a pass over nodes are the pass over their hashes |
| `MerkleNodes.CollapseHashes` | src/merkle_tree.rs:94-120 | collapsing nodes and taking the hash equals collapsing their hashes |
| `MerkleNodes.RootHashMatchesVec` | src/merkle_tree.rs:41-125 | the root node's hash equals the `MerkleTreeVec` root of the same non-empty leaves |
| `MerkleNodes.ShapedDepth` | src/merkle_tree.rs:97-119 | a tree whose bottom nodes all sit at depth `d` has leftmost depth `d` |
| `MerkleNodes.CollapseShaped` | src/merkle_tree.rs:94-120 | pairing nodes of equal height keeps every subtree perfect, with two children per internal node, and correctly hashed |
| `MerkleNodes.RootNodeIsPerfect` | src/merkle_tree.rs:55-124 | the built root is at least one level tall; every internal node has two children hashed as `H(left.hash ++ right.hash)`; all bottom nodes share one depth |
| `MerkleNodes.PairsFringe` | src/merkle_tree.rs:97-118 | a pass keeps the left-to-right bottom row of a level, repeating the last node's row when the level is odd |
| `MerkleNodes.CollapseFringe` | src/merkle_tree.rs:94-120 | a level's bottom row is a prefix of the bottom row of its collapsed root |
| `MerkleNodes.LeafNodesFringe` | src/merkle_tree.rs:62-72 | the bottom row of the childless leaf nodes is the digest list itself |
| `MerkleNodes.FringeStartsWithHashedLeaves` | src/merkle_tree.rs:45-124 | the root's bottom row, read left to right, begins with `H(leaves[0]), ..., H(leaves[n-1])` |
| `MerkleNodes.NoLeavesNoRootNode` | src/merkle_tree.rs:88-124 | with zero leaves the first pass yields no node, so the final `pop().unwrap()` panics |
| `MerkleNodes.RootNodeOfOneLeaf` | src/merkle_tree.rs:190-206 | one leaf `d` gives a root hashed `H(H(d) ++ H(d))` with two childless children hashed `H(d)` |
| `MerkleNodes.RootNodeOfTwoLeaves` | src/merkle_tree.rs:165-189 | two leaves `d, e` give root hash `H(H(d) ++ H(e))` |
| `BinaryTree.InsertRecursive` | src/binary_tree.rs:64-76 | insertion keeps the node's item; a value `>=` the item leaves the left subtree alone, a smaller value the right; the items grow by exactly `{value}` |
| `BinaryTree.AtExtend` | src/binary_tree.rs:92-96 | following a reference one more turn reaches that child |
| `BinaryTree.PutExtend` | src/binary_tree.rs:91-95 | assigning a child through a reference equals replacing its parent by the parent with that child changed |
| `BinaryTree.AtHeight` | src/binary_tree.rs:88-100 | a reference that reaches a node lies strictly within the tree's height |
| `BinaryTree.InsertFillsSearchPath` | src/binary_tree.rs:88-100 | the search path ends at an empty child; insertion puts a childless node holding the value there and changes nothing else |
| `BinaryTree.InsertKeepsOrder` | src/binary_tree.rs:88-100 | insertion preserves the order: left items `<` the node's item, right items `>=` it |
| `BinaryTree.EqualGoesRight` | src/binary_tree.rs:66 | a value equal to a node's item never enters the left subtree and is added to the right one |
| `BinaryTree.Tree.constructor` | src/binary_tree.rs:50-52 | `Tree::new()` is empty (and trivially ordered) |
| `BinaryTree.Tree.Insert` | src/binary_tree.rs:54-62 | `insert` keeps the order, adds exactly one item, and gives the tree the recursive insertion would |
| `BinaryTree.Tree.InsertIterative` | src/binary_tree.rs:78-101 | the worklist loop, with at most one entry and going one level deeper per turn, builds the same tree as `insert_recursive`; an empty tree gets a single childless node |
| `BinaryTree.InsertScenario` | src/binary_tree.rs:158-167 | inserting 8, 10, 3, 7, 2 gives root 8 with left 3 (children 2 and 7) and right 10 |

## Left out

- Keccak-256 itself (src/merkle_tree_vec.rs:11-15 and the inline `Sha3` blocks of src/merkle_tree.rs). It comes from an external crate, so it is the parameter `H`. The digest values in the tests cannot be checked; only their structural equalities are proved.
- Display code: `fmt`, `print_node` and `get_arrow` in both tree files. It is presentation only.
- The `println!` inside `in_merkletree`. It is I/O.
- src/main.rs is not part of this model. It only wires the modules, and the `MerkleTreeDs` type it names is not defined by the code shown.
- Panics are not error values. Building from zero leaves and calling `in_merkletree` with an empty vector are `requires` clauses. The empty case is shown by `MerkleVec.NoLeavesNoRoot` and `MerkleNodes.NoLeavesNoRootNode`.
- Index-based proof generation, left/right-parity verification and not-found errors do not exist in the code, so they are not modelled. `in_merkletree` always puts the running digest on the left, so it only checks paths such as the leftmost leaf's.
- Ownership (`Box`, `clone`, `&mut`) is not modelled. Child nodes are values, and the vectors of `Option<Box<Node>>` in `MerkleTree::new` are sequences of nodes (every entry is `Some` there).
- `BinaryTree.Tree.InsertIterative`: the `&mut Box<Node>` references in the worklist are addresses (turns from the root), and the write through one is `Put` on the whole tree. In-place update and aliasing are therefore not modelled. Ownership rules out aliasing in the source anyway.
- `MerkleTreeVec.in_merkletree` consumes `self`. `InMerkleTree` only reads the object.
- `i32` items are only compared, never computed with, so no wrap-around arises.
