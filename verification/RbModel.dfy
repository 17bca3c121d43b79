/** The intrusive red-black tree of src/rbtree.c: nodes, tree header and what holds of their links. */
module RbModel {

  datatype Color = Red | Black

  /** `struct rbnode`. The ghost fields describe the subtree rooted here: it holds the in-order
      positions [lo, hi), the node itself is at `pos`, and `bh` black nodes lie below it on the
      way to a missing child. */
  class RbNode {
    var color: Color
    var parent: RbNode?
    var left: RbNode?
    var right: RbNode?
    const key: int
    ghost var lo: int
    ghost var pos: int
    ghost var hi: int
    ghost var bh: int

    constructor (key: int)
      ensures this.key == key && color.Red? && parent == null && left == null && right == null
    {
      this.key := key;
      color, parent, left, right := Red, null, null, null;
    }
  }

  ghost function Cell(x: RbNode?): set<RbNode>
  {
    if x == null then {} else {x}
  }

  predicate IsRed(x: RbNode?)
    reads Cell(x)`color
  {
    x != null && x.color.Red?
  }

  /** The black nodes met from `x` (included) down to a missing child. */
  ghost function Count(x: RbNode?): int
    reads Cell(x)`color, Cell(x)`bh
  {
    if x == null then 0 else if x.color.Black? then x.bh + 1 else x.bh
  }

  /** `x` lies in the subtree at `y`. */
  ghost predicate Under(x: RbNode, y: RbNode)
    reads x`pos, y`lo, y`hi
  {
    y.lo <= x.pos < y.hi
  }

  /** `struct rbtree` with the cached minimum enabled. */
  class RbTree {
    var root: RbNode?
    var cachedMin: RbNode?
    const compare: (int, int) -> int
    ghost var order: seq<RbNode>
    ghost var nodes: set<RbNode>

    /** rbt_init */
    constructor (compare: (int, int) -> int)
      ensures this.compare == compare && nodes == {} && order == [] && Valid() && Graded()
    {
      root, cachedMin := null, null;
      this.compare := compare;
      order, nodes := [], {};
    }

    /** Child and parent pointers around one node are mutual. */
    ghost predicate Linked(x: RbNode)
      requires x in nodes
      reads this`root, this`nodes, nodes`left, nodes`right, nodes`parent
    {
      && (x.left != null ==> x.left in nodes && x.left.parent == x)
      && (x.right != null ==> x.right in nodes && x.right.parent == x)
      && (x.parent == null ==> root == x)
      && (x.parent != null ==> x.parent in nodes && (x.parent.left == x || x.parent.right == x))
    }

    ghost predicate KidsIn(x: RbNode)
      reads this`nodes, x`left, x`right
    {
      (x.left == null || x.left in nodes) && (x.right == null || x.right in nodes)
    }

    /** The subtree at `x` covers the in-order positions [lo, hi). */
    ghost predicate Placed(x: RbNode)
      requires x in nodes
      reads this`nodes, this`order, nodes`left, nodes`right, nodes`parent, nodes`lo, nodes`pos, nodes`hi
    {
      && KidsIn(x)
      && 0 <= x.lo <= x.pos < x.hi <= |order|
      && order[x.pos] == x
      && x.pos == (if x.left == null then x.lo else x.left.hi)
      && (x.left != null ==> x.left.lo == x.lo)
      && x.pos + 1 == (if x.right == null then x.hi else x.right.lo)
      && (x.right != null ==> x.right.hi == x.hi)
      && (x.parent == null ==> x.lo == 0 && x.hi == |order|)
    }

    /** The links form one binary tree whose in-order sequence is `order`. */
    ghost predicate Shape()
      reads this`root, this`nodes, this`order, nodes`left, nodes`right, nodes`parent, nodes`lo, nodes`pos, nodes`hi
    {
      && (forall x {:trigger Linked(x)} :: x in nodes ==> Linked(x))
      && (forall x {:trigger Placed(x)} :: x in nodes ==> Placed(x))
      && (forall i {:trigger order[i]} :: 0 <= i < |order| ==> order[i] in nodes && order[i].pos == i)
      && (root == null <==> order == [])
      && (root != null ==> root in nodes && root.parent == null)
    }

    /** `bh` counts the black nodes along the left. */
    ghost predicate Counted(x: RbNode)
      requires x in nodes
      reads this`nodes, nodes`left, nodes`right, nodes`color, nodes`bh
    {
      KidsIn(x) && x.bh == Count(x.left)
    }

    /** Both subtrees of `x` have the same black height. */
    ghost predicate Level(x: RbNode)
      requires x in nodes
      reads this`nodes, nodes`left, nodes`right, nodes`color, nodes`bh
    {
      KidsIn(x) && Count(x.left) == Count(x.right)
    }

    /** A red `x` has no red child, `but` excepted. */
    ghost predicate Calm(x: RbNode, but: RbNode?)
      requires x in nodes
      reads this`nodes, nodes`left, nodes`right, nodes`color
    {
      KidsIn(x) && (x.color.Red? ==> !(IsRed(x.left) && x.left != but) && !(IsRed(x.right) && x.right != but))
    }

    /** The colouring is that of a red-black tree, with `bh` the black heights. */
    ghost predicate Graded()
      reads this`nodes, nodes`left, nodes`right, nodes`color, nodes`bh
    {
      && (forall x {:trigger Counted(x)} :: x in nodes ==> Counted(x))
      && (forall x {:trigger Level(x)} :: x in nodes ==> Level(x))
      && (forall x {:trigger Calm(x, null)} :: x in nodes ==> Calm(x, null))
    }

    ghost predicate Less(a: RbNode, b: RbNode)
    {
      compare(a.key, b.key) < 0
    }

    ghost predicate Sorted()
      reads this`order
    {
      forall i, j {:trigger order[i], order[j]} :: 0 <= i < j < |order| ==> Less(order[i], order[j])
    }

    /** What every operation keeps, whether or not the tree is balanced. */
    ghost predicate Valid()
      reads this`root, this`nodes, this`order, this`cachedMin, nodes`left, nodes`right, nodes`parent, nodes`lo, nodes`pos, nodes`hi, nodes`color
    {
      && Shape() && Sorted()
      && !IsRed(root)
      && cachedMin == (if order == [] then null else order[0])
    }
  }

  /** What the source asks of a comparison function. */
  ghost predicate TotalOrder(compare: (int, int) -> int)
  {
    && (forall a, b :: compare(a, b) < 0 <==> compare(b, a) > 0)
    && (forall a, b, c :: compare(a, b) < 0 && compare(b, c) < 0 ==> compare(a, c) < 0)
  }
}
