/**
 The `i32` binary search tree of src/binary_tree.rs.

 Nodes own their children (`Option<Box<Node>>`), so a subtree is a value. The mutable
 references the iterative insertion keeps in its worklist are modelled as addresses:
 the sequence of turns from the root to the node they point at. Reading through such a
 reference is `At`, and assigning to the `None` child it points into is `Put`.
 */
module BinaryTree {
  import opened Wrappers

  /** Rust's `i32`; items are only compared, never computed with. */
  newtype i32 = x: int | -0x8000_0000 <= x < 0x8000_0000

  /** `Node { item, left, right }`; the `Leaf` alias is `Option<Node>`. */
  datatype Node = Node(item: i32, left: Option<Node>, right: Option<Node>)

  /** One turn on the way down from a node. */
  datatype Dir = Left | Right

  /** `Node::new(item)`: a node with no children. */
  function NewNode(item: i32): Node
  {
    Node(item, None, None)
  }

  /** The turn `match value.cmp(&node.item)` takes: greater or equal go right. */
  function Turn(node: Node, value: i32): Dir
  {
    if value >= node.item then Right else Left
  }

  function Child(node: Node, d: Dir): Option<Node>
  {
    if d == Left then node.left else node.right
  }

  function WithChild(node: Node, d: Dir, child: Option<Node>): Node
  {
    if d == Left then node.(left := child) else node.(right := child)
  }

  /** The items stored in a (possibly empty) subtree, with their multiplicities. */
  function Items(t: Option<Node>): multiset<i32>
  {
    match t
    case None => multiset{}
    case Some(n) => multiset{n.item} + Items(n.left) + Items(n.right)
  }

  function Height(t: Option<Node>): nat
  {
    match t
    case None => 0
    case Some(n) =>
      var l, r := Height(n.left), Height(n.right);
      1 + if l < r then r else l
  }

  /** The search-tree order: every item on the left is smaller than the node's item,
      every item on the right is at least as large, in every subtree. */
  ghost predicate Ordered(t: Option<Node>)
  {
    match t
    case None => true
    case Some(n) =>
      && (forall x | x in Items(n.left) :: x < n.item)
      && (forall x | x in Items(n.right) :: n.item <= x)
      && Ordered(n.left)
      && Ordered(n.right)
  }

  /** `insert_recursive`: descend by `Turn` and fill the first empty child with a new node. */
  function InsertRecursive(node: Node, value: i32): (r: Node)
    ensures r.item == node.item
    ensures Turn(node, value) == Right ==> r.left == node.left
    ensures Turn(node, value) == Left ==> r.right == node.right
    ensures Items(Some(r)) == Items(Some(node)) + multiset{value}
    decreases node
  {
    var d := Turn(node, value);
    match Child(node, d)
    case None => WithChild(node, d, Some(NewNode(value)))
    case Some(n) => WithChild(node, d, Some(InsertRecursive(n, value)))
  }

  /** Insertion at the root: the commented-out body of `insert` and the first branch of
      `insert_iterative`. An empty tree gets a single new node. */
  function InsertRoot(root: Option<Node>, value: i32): Node
  {
    match root
    case None => NewNode(value)
    case Some(n) => InsertRecursive(n, value)
  }

  // ---------------------------------------------------------------------------------
  // Addresses: what a `&mut Box<Node>` in the worklist points at.

  /** The subtree at address `a`, or `None` if the address runs off the tree. */
  function At(t: Option<Node>, a: seq<Dir>): Option<Node>
    decreases |a|
  {
    if a == [] then t
    else
      match t
      case None => None
      case Some(n) => At(Child(n, a[0]), a[1..])
  }

  /** The tree with the subtree at address `a` replaced by `s`. */
  function Put(t: Option<Node>, a: seq<Dir>, s: Option<Node>): Option<Node>
    decreases |a|
  {
    if a == [] then s
    else
      match t
      case None => None
      case Some(n) => Some(WithChild(n, a[0], Put(Child(n, a[0]), a[1..], s)))
  }

  /** Following one more turn from a node reaches the child on that side. */
  lemma {:induction false} AtExtend(t: Option<Node>, a: seq<Dir>, d: Dir)
    requires At(t, a).Some?
    ensures At(t, a + [d]) == Child(At(t, a).value, d)
    decreases |a|
  {
    if a != [] {
      assert (a + [d])[1..] == a[1..] + [d];
      AtExtend(Child(t.value, a[0]), a[1..], d);
    }
  }

  /** Assigning to a child through a reference to its parent is replacing the parent
      by itself with that child changed. */
  lemma {:induction false} PutExtend(t: Option<Node>, a: seq<Dir>, d: Dir, s: Option<Node>)
    requires At(t, a).Some?
    ensures Put(t, a + [d], s) == Put(t, a, Some(WithChild(At(t, a).value, d, s)))
    decreases |a|
  {
    if a == [] {
      assert Put(Child(t.value, d), [], s) == s;
    } else {
      assert (a + [d])[1..] == a[1..] + [d];
      PutExtend(Child(t.value, a[0]), a[1..], d, s);
    }
  }

  /** An address that reaches a node is shorter than the tree is high, by the height of
      the node it reaches. */
  lemma {:induction false} AtHeight(t: Option<Node>, a: seq<Dir>)
    requires At(t, a).Some?
    ensures |a| + Height(At(t, a)) <= Height(t)
    decreases |a|
  {
    if a != [] {
      AtHeight(Child(t.value, a[0]), a[1..]);
    }
  }

  // ---------------------------------------------------------------------------------
  // What insertion does.

  /** The turns a value takes from `t` down to the first empty child. */
  function SearchPath(t: Option<Node>, value: i32): seq<Dir>
  {
    match t
    case None => []
    case Some(n) => [Turn(n, value)] + SearchPath(Child(n, Turn(n, value)), value)
  }

  /** Insertion fills exactly one empty child, the one at the end of the search path, with
      a new childless node; every other node keeps its item and its links. */
  lemma {:induction false} InsertFillsSearchPath(node: Node, value: i32)
    ensures At(Some(node), SearchPath(Some(node), value)) == None
    ensures Some(InsertRecursive(node, value)) == Put(Some(node), SearchPath(Some(node), value), Some(NewNode(value)))
    ensures At(Some(InsertRecursive(node, value)), SearchPath(Some(node), value)) == Some(NewNode(value))
  {
    var d := Turn(node, value);
    var p := SearchPath(Some(node), value);
    assert p[0] == d && p[1..] == SearchPath(Child(node, d), value);
    match Child(node, d)
    case None =>
      assert p == [d];
    case Some(n) =>
      InsertFillsSearchPath(n, value);
  }

  /** One more item on the side that already admits it keeps a subtree's bound. */
  lemma BoundWithItem(t: Option<Node>, grown: Option<Node>, value: i32, lo: bool, bound: i32)
    requires Items(grown) == Items(t) + multiset{value}
    requires lo ==> forall x | x in Items(t) :: bound <= x
    requires !lo ==> forall x | x in Items(t) :: x < bound
    requires lo ==> bound <= value
    requires !lo ==> value < bound
    ensures lo ==> forall x | x in Items(grown) :: bound <= x
    ensures !lo ==> forall x | x in Items(grown) :: x < bound
  {
  }

  /** Insertion keeps the search-tree order. */
  lemma {:induction false} InsertKeepsOrder(node: Node, value: i32)
    requires Ordered(Some(node))
    ensures Ordered(Some(InsertRecursive(node, value)))
  {
    var r := InsertRecursive(node, value);
    var d := Turn(node, value);
    var grown := Child(r, d);
    match Child(node, d)
    case None =>
      assert grown == Some(NewNode(value));
      assert Ordered(grown);
    case Some(n) =>
      assert grown == Some(InsertRecursive(n, value));
      InsertKeepsOrder(n, value);
    assert Items(grown) == Items(Child(node, d)) + multiset{value};
    BoundWithItem(Child(node, d), grown, value, d == Right, node.item);
  }

  /** A value equal to a node's item never goes into that node's left subtree. */
  lemma EqualGoesRight(node: Node)
    ensures InsertRecursive(node, node.item).left == node.left
    ensures Items(InsertRecursive(node, node.item).right) == Items(node.right) + multiset{node.item}
  {
  }

  /** `Tree { root }`. */
  class Tree {
    var root: Option<Node>

    ghost predicate Valid()
      reads this
    {
      Ordered(root)
    }

    /** `Tree::new()`: the empty tree. */
    constructor ()
      ensures root == None
      ensures Valid()
    {
      root := None;
    }

    /** `insert`, which runs the iterative version. */
    method Insert(value: i32)
      requires Valid()
      modifies this
      ensures Valid()
      ensures root == Some(InsertRoot(old(root), value))
      ensures Items(root) == Items(old(root)) + multiset{value}
    {
      InsertIterative(value);
      if old(root).Some? {
        InsertKeepsOrder(old(root).value, value);
      }
    }

    /** `insert_iterative`: a worklist holding at most one reference walks down by
        `Turn` until the child on that side is empty, and assigns a new node to it. */
    method InsertIterative(value: i32)
      modifies this
      ensures root == Some(InsertRoot(old(root), value))
    {
      if root.None? {
        root := Some(NewNode(value));
        return;
      }
      ghost var start := root.value;
      var q: seq<seq<Dir>> := [[]];
      while |q| > 0
        invariant |q| <= 1
        invariant |q| == 1 ==> root == old(root) && At(root, q[0]).Some?
        invariant |q| == 1 ==> |q[0]| < Height(root)
        invariant |q| == 1 ==>
          Put(root, q[0], Some(InsertRecursive(At(root, q[0]).value, value))) == Some(InsertRecursive(start, value))
        invariant |q| == 0 ==> root == Some(InsertRecursive(start, value))
        decreases if |q| == 0 then 0 else 1 + Height(At(root, q[0]))
      {
        var addr := q[|q| - 1];
        q := q[..|q| - 1];
        var node := At(root, addr).value;
        var d := Turn(node, value);
        AtExtend(root, addr, d);
        match Child(node, d) {
          case None =>
            PutExtend(root, addr, d, Some(NewNode(value)));
            root := Put(root, addr + [d], Some(NewNode(value)));
          case Some(n) =>
            PutExtend(root, addr, d, Some(InsertRecursive(n, value)));
            AtHeight(root, addr + [d]);
            q := q + [addr + [d]];
        }
      }
    }
  }

  /** The insertions of the source's test: 8, 10, 3, 7, 2. */
  method InsertScenario() returns (root: Option<Node>)
    ensures root == Some(Node(8, Some(Node(3, Some(NewNode(2)), Some(NewNode(7)))), Some(NewNode(10))))
  {
    var tree := new Tree();
    tree.Insert(8);
    tree.Insert(10);
    tree.Insert(3);
    tree.Insert(7);
    tree.Insert(2);
    root := tree.root;
  }
}
