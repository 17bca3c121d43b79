/** The two rotations of src/rbtree.c. */
module RbRotate {
  import opened RbModel

  /** The child pointer of `p` (the root pointer, when `p` is null) that held `a` now holds `c`. */
  twostate predicate Replaced(t: RbTree, p: RbNode?, a: RbNode, c: RbNode?)
    reads t`root, Cell(p)`left, Cell(p)`right
  {
    && t.root == (if p == null then c else old(t.root))
    && (p != null && old(p.left) == a ==> p.left == c && p.right == old(p.right))
    && (p != null && old(p.left) != a ==> p.left == old(p.left) && p.right == c)
  }

  /** What both rotations do: `c` rises above its parent `a`, whose parent was `p`, and hands it the subtree `e`. */
  twostate predicate Lifted(t: RbTree, a: RbNode, c: RbNode, e: RbNode?, p: RbNode?)
    reads t`root, t`order, t`nodes, t.nodes`left, t.nodes`right, t.nodes`parent, t.nodes`lo, t.nodes`pos, t.nodes`hi
  {
    && t.order == old(t.order) && t.nodes == old(t.nodes)
    && a in t.nodes && c in t.nodes && a != c
    && p == old(a.parent) && p != a && p != c
    && (p != null ==> p in t.nodes)
    && Replaced(t, p, a, c)
    && a.parent == c && c.parent == p
    && (e != null ==> e in t.nodes && e.parent == a)
    && c.lo == old(a.lo) && c.hi == old(a.hi)
    && (forall x {:trigger x.pos} :: x in t.nodes ==> x.pos == old(x.pos))
    && (forall x {:trigger x.lo} :: x in t.nodes && x != a && x != c ==> x.lo == old(x.lo))
    && (forall x {:trigger x.hi} :: x in t.nodes && x != a && x != c ==> x.hi == old(x.hi))
    && (forall x {:trigger x.left} :: x in t.nodes && x != a && x != c && x != p ==> x.left == old(x.left))
    && (forall x {:trigger x.right} :: x in t.nodes && x != a && x != c && x != p ==> x.right == old(x.right))
    && (forall x {:trigger x.parent} :: x in t.nodes && x != a && x != c && x != e ==> x.parent == old(x.parent))
  }

  twostate predicate TurnedLeft(t: RbTree, a: RbNode, c: RbNode)
    reads t`root, t`order, t`nodes, t.nodes`left, t.nodes`right, t.nodes`parent, t.nodes`lo, t.nodes`pos, t.nodes`hi
  {
    && c == old(a.right)
    && Lifted(t, a, c, old(c.left), old(a.parent))
    && a.left == old(a.left) && a.right == old(c.left)
    && c.left == a && c.right == old(c.right)
    && a.lo == old(a.lo) && a.hi == c.pos
  }

  twostate predicate TurnedRight(t: RbTree, a: RbNode, b: RbNode)
    reads t`root, t`order, t`nodes, t.nodes`left, t.nodes`right, t.nodes`parent, t.nodes`lo, t.nodes`pos, t.nodes`hi
  {
    && b == old(a.left)
    && Lifted(t, a, b, old(b.right), old(a.parent))
    && a.left == old(b.right) && a.right == old(a.right)
    && b.left == old(b.left) && b.right == a
    && a.lo == b.pos + 1 && a.hi == old(a.hi)
  }

  method TurnLeft(t: RbTree, a: RbNode)
    requires a in t.nodes
    requires a.right in t.nodes && a != a.right
    requires a.right.left != a && a.right.left != a.right
    requires a.right.left == null || a.right.left in t.nodes
    requires a.parent == null || a.parent in t.nodes
    requires a.parent != a && a.parent != a.right
    requires a.parent == null || a.parent.left == a || a.parent.right == a
    modifies t`root, t.nodes`left, t.nodes`right, t.nodes`parent, t.nodes`lo, t.nodes`hi
    ensures TurnedLeft(t, a, old(a.right))
  {
    var c := a.right;
    if a.parent != null {
      if a.parent.left == a {
        a.parent.left := c;
      } else {
        a.parent.right := c;
      }
    } else {
      t.root := c;
    }
    c.parent := a.parent;
    a.parent := c;
    a.right := c.left;
    c.left := a;
    if a.right != null {
      a.right.parent := a;
    }
    c.lo, c.hi, a.hi := a.lo, a.hi, c.pos;
  }

  method TurnRight(t: RbTree, a: RbNode)
    requires a in t.nodes
    requires a.left in t.nodes && a != a.left
    requires a.left.right != a && a.left.right != a.left
    requires a.left.right == null || a.left.right in t.nodes
    requires a.parent == null || a.parent in t.nodes
    requires a.parent != a && a.parent != a.left
    requires a.parent == null || a.parent.left == a || a.parent.right == a
    modifies t`root, t.nodes`left, t.nodes`right, t.nodes`parent, t.nodes`lo, t.nodes`hi
    ensures TurnedRight(t, a, old(a.left))
  {
    var b := a.left;
    if a.parent != null {
      if a.parent.left == a {
        a.parent.left := b;
      } else {
        a.parent.right := b;
      }
    } else {
      t.root := b;
    }
    b.parent := a.parent;
    a.parent := b;
    a.left := b.right;
    b.right := a;
    if a.left != null {
      a.left.parent := a;
    }
    b.lo, b.hi, a.lo := a.lo, a.hi, b.pos + 1;
  }

  twostate lemma TurnKeepsLinks(t: RbTree, new a: RbNode, new c: RbNode, new x: RbNode)
    requires a in old(t.nodes) && c in old(t.nodes) && x in old(t.nodes)
    requires old(t.Shape()) && (TurnedLeft(t, a, c) || TurnedRight(t, a, c))
    ensures t.Linked(x)
  {
    assert old(t.Linked(a)); assert old(t.Linked(c)); assert old(t.Linked(x));
    assert old(t.Placed(a)); assert old(t.Placed(x));
  }

  twostate lemma TurnKeepsPlaces(t: RbTree, new a: RbNode, new c: RbNode, new x: RbNode)
    requires a in old(t.nodes) && c in old(t.nodes) && x in old(t.nodes)
    requires old(t.Shape()) && (TurnedLeft(t, a, c) || TurnedRight(t, a, c))
    ensures t.Placed(x)
  {
    assert old(t.Linked(a)); assert old(t.Linked(c)); assert old(t.Linked(x));
    assert old(t.Placed(a)); assert old(t.Placed(c)); assert old(t.Placed(x));
  }

  twostate lemma TurnKeepsShape(t: RbTree, new a: RbNode, new c: RbNode)
    requires a in old(t.nodes) && c in old(t.nodes)
    requires old(t.Shape()) && (TurnedLeft(t, a, c) || TurnedRight(t, a, c))
    ensures t.Shape()
  {
    assert old(t.Linked(a)); assert old(t.Linked(c));
    forall x | x in t.nodes
      ensures t.Linked(x)
    {
      TurnKeepsLinks(t, a, c, x);
    }
    forall x | x in t.nodes
      ensures t.Placed(x)
    {
      TurnKeepsPlaces(t, a, c, x);
    }
  }

  method RotateLeft(t: RbTree, a: RbNode)
    requires t.Shape() && a in t.nodes && a.right != null
    modifies t`root, t.nodes`left, t.nodes`right, t.nodes`parent, t.nodes`lo, t.nodes`hi
    ensures t.Shape()
    ensures TurnedLeft(t, a, old(a.right))
  {
    ghost var c: RbNode := a.right;
    assert t.Linked(a); assert t.Linked(c); assert t.Placed(a); assert t.Placed(c);
    TurnLeft(t, a);
    TurnKeepsShape(t, a, c);
  }

  method RotateRight(t: RbTree, a: RbNode)
    requires t.Shape() && a in t.nodes && a.left != null
    modifies t`root, t.nodes`left, t.nodes`right, t.nodes`parent, t.nodes`lo, t.nodes`hi
    ensures t.Shape()
    ensures TurnedRight(t, a, old(a.left))
  {
    ghost var b: RbNode := a.left;
    assert t.Linked(a); assert t.Linked(b); assert t.Placed(a); assert t.Placed(b);
    TurnRight(t, a);
    TurnKeepsShape(t, a, b);
  }
}
