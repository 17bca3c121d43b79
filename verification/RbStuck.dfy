/** When rbt_remove_fixup of src/rbtree.c comes to dereference a sibling that is not there. */
module RbStuck {
  import opened RbModel
  import opened RbInsertFixup

  /** Whether the loop, with a gap at the `left` (or right) of `p`, comes to dereference a missing sibling. It goes on
      above `p` only in case 2 at a black `p`: the sibling and its children are black. */
  ghost predicate Stuck(t: RbTree, p: RbNode, left: bool)
    requires t.Shape() && p in t.nodes
    reads t`root, t`nodes, t`order, t.nodes`left, t.nodes`right, t.nodes`parent, t.nodes`lo, t.nodes`pos, t.nodes`hi, t.nodes`color
    decreases |t.order| - (p.hi - p.lo)
  {
    assert t.Linked(p); assert t.Placed(p);
    var s := if left then p.right else p.left;
    if s == null then true
    else
      assert t.Placed(s);
      if s.color.Red? then (if left then s.left else s.right) == null
      else if IsRed(s.left) || IsRed(s.right) || p.color.Red? || p.parent == null then false
      else assert t.Placed(p.parent); Stuck(t, p.parent, IsLeft(p))
  }

  /** In a red-black tree a subtree with a black node in it has a sibling with one. */
  lemma {:induction false} GradedNeverStuck(t: RbTree, p: RbNode, left: bool)
    requires t.Shape() && t.Graded() && p in t.nodes
    requires Count(if left then p.left else p.right) >= 1
    ensures !Stuck(t, p, left)
    decreases |t.order| - (p.hi - p.lo)
  {
    assert t.Linked(p); assert t.Placed(p); assert t.Level(p); assert t.Counted(p);
    var s: RbNode := if left then p.right else p.left;
    assert t.Placed(s); assert t.Level(s); assert t.Counted(s);
    if s.color.Black? && p.color.Black? && p.parent != null {
      assert t.Placed(p.parent); assert t.Linked(p.parent);
      GradedNeverStuck(t, p.parent, IsLeft(p));
    }
  }

  /** The sibling of `c` and its children are outside the subtree at `c`. */
  twostate lemma SiblingKept(t: RbTree, new c: RbNode, new p: RbNode, new s: RbNode?)
    requires c in old(t.nodes) && p in old(t.nodes)
    requires old(t.Shape()) && OutsideKept(t, c) && c.parent == p && s == (if IsLeft(c) then p.right else p.left)
    ensures p == old(c.parent) && p.left == old(p.left) && p.right == old(p.right) && p.color == old(p.color) && p.parent == old(p.parent)
    ensures IsLeft(c) == old(IsLeft(c)) && IsLeft(p) == old(IsLeft(p)) && OutsideKept(t, p)
    ensures s == null || (s in old(t.nodes) && s.color == old(s.color) && s.left == old(s.left) && s.right == old(s.right))
    ensures s == null || (IsRed(s.left) == old(IsRed(s.left)) && IsRed(s.right) == old(IsRed(s.right)))
  {
    assert old(t.Linked(c)); assert old(t.Placed(c)); assert old(t.Linked(p)); assert old(t.Placed(p));
    if s != null {
      var s': RbNode := s;
      assert old(t.Placed(s'));
      if s'.left != null { var l: RbNode := s'.left; assert old(t.Placed(l)); }
      if s'.right != null { var r: RbNode := s'.right; assert old(t.Placed(r)); }
    }
    OutsideShrinks(t, c, p);
    if p.parent != null {
      var g: RbNode := p.parent;
      assert old(t.Placed(g));
    }
  }

  /** What lies outside the subtree at `c` decides about the loop standing there. */
  twostate lemma StuckKept(t: RbTree, new c: RbNode, new p: RbNode)
    requires c in old(t.nodes) && p in old(t.nodes)
    requires old(t.Shape()) && t.Shape()
    requires OutsideKept(t, c) && c.parent == p
    ensures Stuck(t, p, IsLeft(c)) == old(Stuck(t, p, IsLeft(c)))
    decreases |t.order| - (p.hi - p.lo)
  {
    assert t.Linked(p); assert t.Placed(p);
    SiblingKept(t, c, p, if IsLeft(c) then p.right else p.left);
    if p.parent != null {
      var g: RbNode := p.parent;
      assert t.Placed(g);
      StuckKept(t, p, g);
    }
  }
}
