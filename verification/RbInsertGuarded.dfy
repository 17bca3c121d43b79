/** Insertion with the loop run under the invariant that src/rbtree.c:93 states, "node is always RED inside the loop".
    The guard of the source tests the parent only; here it tests the node as well. This is a deviation from the code:
    `RbInsert` has the loop as it is written. */
module RbInsertGuarded {
  import opened RbModel
  import opened RbInsertFixup
  import opened RbInsert
  import opened RbCheck

  /** The loop is over: the node is black, or its parent is, or it is the root. */
  method CloseLoop(t: RbTree, ghost node: RbNode, ghost graded: bool)
    requires t.Shape() && node in t.nodes && RootCalm(t, node) && t.root != null
    requires node.parent == null || node.parent in t.nodes
    requires !(IsRed(node) && IsRed(node.parent))
    requires graded ==> Climb(t, node, true)
    modifies t.root`color
    ensures t.root.color.Black?
    ensures graded ==> t.Graded()
  {
    t.root.color := Black;
    if graded {
      forall x | x in t.nodes ensures t.Counted(x) && t.Level(x) && t.Calm(x, null) {
        assert t.Linked(x); assert t.Linked(node);
        assert old(t.Counted(x)); assert old(t.Level(x)); assert old(t.Calm(x, node));
      }
    }
  }

  /** rbt_insert_fixup, stopping when the node is black. */
  method GuardedFixup(t: RbTree, n: RbNode, ghost graded: bool)
    requires t.Shape() && n in t.nodes && RootCalm(t, n)
    requires graded ==> Climb(t, n, true)
    modifies t`root, t.nodes`left, t.nodes`right, t.nodes`parent, t.nodes`lo, t.nodes`hi, t.nodes`color, t.nodes`bh
    ensures t.Shape() && t.order == old(t.order) && t.nodes == old(t.nodes)
    ensures t.root != null && t.root.color.Black?
    ensures graded ==> t.Graded()
  {
    var node := n;
    ghost var sound, w := true, null;
    assert t.Linked(node); assert t.Placed(node);
    while node.color.Red? && node.parent != null && node.parent.color.Red?
      invariant t.Shape() && t.order == old(t.order) && t.nodes == old(t.nodes)
      invariant node in t.nodes && RootCalm(t, node)
      invariant node.parent == null || node.parent in t.nodes
      invariant sound && (w == null || w in t.nodes)
      invariant graded ==> State(t, node, sound, w)
      invariant node.hi - node.lo <= |t.order|
      decreases |t.order| - (node.hi - node.lo)
    {
      node, sound, w := FixupPass(t, node, graded, sound, w);
      assert t.Linked(node); assert t.Placed(node);
    }
    CloseLoop(t, node, graded);
  }

  /** With that loop every insertion of a new key into a red-black tree gives a red-black tree with exactly one more node. */
  method InsertGuarded(t: RbTree, n: RbNode) returns (ok: bool)
    requires t.Valid() && TotalOrder(t.compare) && n !in t.nodes
    modifies t`root, t`cachedMin, t`nodes, t`order, t.nodes, n
    ensures t.Valid()
    ensures ok <==> forall x :: x in old(t.nodes) ==> t.compare(n.key, x.key) != 0
    ensures !ok ==> unchanged(t) && forall x :: x in t.nodes ==> unchanged(x)
    ensures ok ==> t.nodes == old(t.nodes) + {n} && exists at :: 0 <= at <= |old(t.order)| && t.order == old(t.order)[..at] + [n] + old(t.order)[at..]
    ensures ok && old(t.Graded()) ==> t.Graded() && Passes(t)
  {
    ghost var graded, dooms := t.Graded(), Dooms(t, n.key);
    ghost var at;
    ok, at := Place(t, n, graded, dooms);
    if !ok {
      return false;
    }
    UpdateMin(t, n, old(t.order), at);
    GuardedFixup(t, n, graded);
    if graded {
      GradedPasses(t);
    }
    return true;
  }
}
