/** rbt_remove_fixup of src/rbtree.c. */
module RbRemoveFixup {
  import opened RbModel
  import opened RbRotate
  import opened RbInsertFixup
  import opened RbCheck
  import opened RbStuck

  /** The subtree `node` of `parent` is one black node short; everything else is in order. */
  ghost predicate Lacks(t: RbTree, node: RbNode?, parent: RbNode)
    requires parent in t.nodes && (node == null || node in t.nodes)
    reads t`root, t`nodes, t.nodes`left, t.nodes`right, t.nodes`color, t.nodes`bh
  {
    && (forall x {:trigger t.Counted(x)} :: x in t.nodes && x != parent ==> t.Counted(x))
    && (forall x {:trigger t.Level(x)} :: x in t.nodes && x != parent ==> t.Level(x))
    && (forall x {:trigger t.Calm(x, null)} :: x in t.nodes ==> t.Calm(x, null))
    && t.root in t.nodes && !IsRed(t.root) && !IsRed(node)
    && t.KidsIn(parent) && parent.bh == Count(node) + 1
    && ((parent.left == node && parent.bh == Count(parent.right)) || (parent.right == node && parent.bh == Count(parent.left)))
  }

  lemma {:induction false} CountNonNegative(t: RbTree, x: RbNode?, parent: RbNode)
    requires t.Shape() && parent in t.nodes && (x == null || (x in t.nodes && !Under(parent, x)))
    requires forall y {:trigger t.Counted(y)} :: y in t.nodes && y != parent ==> t.Counted(y)
    ensures Count(x) >= 0
    decreases Size(x)
  {
    if x != null {
      assert t.Placed(x); assert t.Counted(x);
      KidsSmaller(t, x);
      if x.left != null {
        var l: RbNode := x.left;
        assert t.Placed(l);
      }
      CountNonNegative(t, x.left, parent);
    }
  }

  /** The sibling of a short subtree exists and its black height is that of `parent`. */
  lemma SiblingExists(t: RbTree, node: RbNode?, parent: RbNode)
    requires t.Shape() && parent in t.nodes && (node == null || node in t.nodes) && Lacks(t, node, parent)
    ensures parent.left == node ==> parent.right != null && parent.right != node && parent.bh == Count(parent.right)
    ensures parent.left != node ==> parent.right == node && parent.left != null && parent.bh == Count(parent.left)
    ensures Count(node) >= 0
  {
    assert t.Placed(parent); assert t.Linked(parent);
    if node != null {
      assert t.Placed(node);
    }
    CountNonNegative(t, node, parent);
  }

  // ----- case 1: red sibling -----

  twostate predicate Case1(t: RbTree, parent: RbNode, s: RbNode)
    reads t`root, t`order, t`nodes, t.nodes`left, t.nodes`right, t.nodes`parent, t.nodes`lo, t.nodes`pos, t.nodes`hi, t.nodes`color, t.nodes`bh
  {
    && (TurnedLeft(t, parent, s) || TurnedRight(t, parent, s))
    && Repainted(t, s, parent) && SameHeights(t) && old(IsRed(s))
  }

  twostate lemma Case1At(t: RbTree, new node: RbNode?, new parent: RbNode, new s: RbNode, new x: RbNode)
    requires {parent, s, x} <= old(t.nodes) && (node == null || node in old(t.nodes))
    requires old(t.Shape() && Lacks(t, node, parent)) && node != s
    requires Case1(t, parent, s)
    ensures x != parent ==> t.Counted(x) && t.Level(x)
    ensures t.Calm(x, null)
  {
    assert old(t.Linked(parent)); assert old(t.Linked(s)); assert old(t.Linked(x));
    assert old(t.Placed(parent)); assert old(t.Placed(x));
    assert x != parent ==> old(t.Counted(x)) && old(t.Level(x));
    assert old(t.Counted(s)) && old(t.Level(s));
    assert old(t.Calm(x, null)) && old(t.Calm(parent, null)) && old(t.Calm(s, null));
  }

  twostate lemma Case1KeepsLacks(t: RbTree, new node: RbNode?, new parent: RbNode, new s: RbNode)
    requires {parent, s} <= old(t.nodes) && (node == null || node in old(t.nodes))
    requires old(t.Shape() && Lacks(t, node, parent)) && node != s && t.Shape()
    requires Case1(t, parent, s)
    ensures Lacks(t, node, parent)
    ensures parent.color.Red? && !IsRed(parent.left) && !IsRed(parent.right)
  {
    forall x | x in t.nodes
      ensures x != parent ==> t.Counted(x) && t.Level(x)
      ensures t.Calm(x, null)
    {
      Case1At(t, node, parent, s, x);
    }
    assert old(t.Linked(parent)); assert old(t.Linked(s)); assert old(t.Placed(parent));
    assert old(t.Counted(s)) && old(t.Level(s)) && old(t.Calm(s, null));
    assert t.Calm(parent, null);
  }

  twostate lemma Case1Root(t: RbTree, new parent: RbNode, new s: RbNode)
    requires {parent, s} <= old(t.nodes) && old(t.Shape() && t.root in t.nodes && !IsRed(t.root))
    requires Case1(t, parent, s)
    ensures t.root in t.nodes && !IsRed(t.root)
  {
    assert old(t.Linked(parent)); assert old(t.Linked(s));
  }

  // ----- case 2: black sibling with black children -----

  twostate predicate Case2(t: RbTree, node: RbNode?, parent: RbNode, s: RbNode)
    requires {parent, s} <= old(t.nodes)
    reads t`root, t`order, t`nodes, t.nodes`left, t.nodes`right, t.nodes`parent, t.nodes`lo, t.nodes`pos, t.nodes`hi, t.nodes`color, t.nodes`bh
  {
    && SameLinks(t) && parent != s
    && ((parent.left == node && parent.right == s) || (parent.left == s && parent.right == node))
    && t.KidsIn(s) && !old(IsRed(s.left)) && !old(IsRed(s.right))
    && s.color.Red? && parent.color.Black?
    && (forall x {:trigger x.color} :: x in t.nodes && x != s && x != parent ==> x.color == old(x.color))
    && parent.bh == old(parent.bh) - 1
    && (forall x {:trigger x.bh} :: x in t.nodes && x != parent ==> x.bh == old(x.bh))
  }

  twostate lemma Case2At(t: RbTree, new node: RbNode?, new parent: RbNode, new s: RbNode, new x: RbNode)
    requires {parent, s, x} <= old(t.nodes) && (node == null || node in old(t.nodes))
    requires old(t.Shape() && Lacks(t, node, parent)) && node != s
    requires Case2(t, node, parent, s) && old(s.color.Black?)
    ensures x != parent.parent || old(parent.color.Red?) ==> t.Counted(x) && t.Level(x)
    ensures t.Calm(x, null)
  {
    assert old(t.Linked(parent)); assert old(t.Linked(s)); assert old(t.Linked(x));
    assert old(t.Placed(x));
    assert x != parent ==> old(t.Counted(x)) && old(t.Level(x));
    assert old(t.Calm(x, null)); assert old(t.Calm(s, null));
  }

  twostate lemma Case2Root(t: RbTree, new node: RbNode?, new parent: RbNode, new s: RbNode)
    requires {parent, s} <= old(t.nodes) && (node == null || node in old(t.nodes))
    requires old(t.Shape() && t.root in t.nodes && !IsRed(t.root))
    requires Case2(t, node, parent, s)
    ensures t.root in t.nodes && !IsRed(t.root)
  {
    assert old(t.Linked(parent)); assert old(t.Linked(s));
  }

  twostate lemma Case2Outside(t: RbTree, new node: RbNode?, new parent: RbNode, new s: RbNode)
    requires {parent, s} <= old(t.nodes) && (node == null || node in old(t.nodes))
    requires old(t.Shape() && parent.color.Black?)
    requires Case2(t, node, parent, s)
    ensures OutsideKept(t, parent)
  {
    assert old(t.Placed(parent)); assert old(t.Placed(s));
  }

  twostate lemma Case2Grades(t: RbTree, new node: RbNode?, new parent: RbNode, new s: RbNode)
    requires {parent, s} <= old(t.nodes) && (node == null || node in old(t.nodes))
    requires old(t.Shape() && Lacks(t, node, parent)) && node != s
    requires Case2(t, node, parent, s) && old(s.color.Black?)
    requires old(parent.color.Red?) || parent.parent == null
    ensures t.Graded()
  {
    forall x | x in t.nodes
      ensures t.Counted(x) && t.Level(x) && t.Calm(x, null)
    {
      Case2At(t, node, parent, s, x);
    }
  }

  twostate lemma Case2Climbs(t: RbTree, new node: RbNode?, new parent: RbNode, new s: RbNode, new up: RbNode)
    requires {parent, s, up} <= old(t.nodes) && (node == null || node in old(t.nodes))
    requires old(t.Shape() && Lacks(t, node, parent)) && node != s
    requires Case2(t, node, parent, s) && old(s.color.Black?)
    requires old(parent.color.Black?) && up == parent.parent
    ensures Lacks(t, parent, up)
  {
    forall x | x in t.nodes
      ensures x != up ==> t.Counted(x) && t.Level(x)
      ensures t.Calm(x, null)
    {
      Case2At(t, node, parent, s, x);
    }
    Case2Root(t, node, parent, s);
    assert old(t.Linked(parent)); assert old(t.Linked(s)); assert old(t.Linked(up)); assert old(t.Placed(up));
    assert old(t.Counted(up)) && old(t.Level(up));
  }

  // ----- case 4: black sibling with a red outer child -----

  twostate predicate Case4(t: RbTree, parent: RbNode, s: RbNode, far: RbNode)
    reads t`root, t`order, t`nodes, t.nodes`left, t.nodes`right, t.nodes`parent, t.nodes`lo, t.nodes`pos, t.nodes`hi, t.nodes`color, t.nodes`bh
  {
    && ((TurnedLeft(t, parent, s) && far == s.right) || (TurnedRight(t, parent, s) && far == s.left))
    && far in t.nodes && far != parent && far != s
    && old(far.color.Red?)
    && s.color == old(parent.color) && parent.color.Black? && far.color.Black?
    && (forall x {:trigger x.color} :: x in t.nodes && x !in {s, parent, far} ==> x.color == old(x.color))
    && s.bh == old(parent.bh) && parent.bh == old(parent.bh) - 1
    && (forall x {:trigger x.bh} :: x in t.nodes && x != s && x != parent ==> x.bh == old(x.bh))
  }

  twostate lemma Case4At(t: RbTree, new node: RbNode?, new parent: RbNode, new s: RbNode, new far: RbNode, new x: RbNode)
    requires {parent, s, far, x} <= old(t.nodes) && (node == null || node in old(t.nodes))
    requires old(t.Shape() && Lacks(t, node, parent)) && node != s
    requires Case4(t, parent, s, far) && old(s.color.Black?)
    ensures t.Counted(x) && t.Level(x) && t.Calm(x, null)
  {
    assert old(t.Linked(parent)); assert old(t.Linked(s)); assert old(t.Linked(x));
    assert old(t.Placed(parent)); assert old(t.Placed(s)); assert old(t.Placed(x));
    assert x != parent ==> old(t.Counted(x)) && old(t.Level(x));
    assert old(t.Counted(s)) && old(t.Level(s));
    assert old(t.Calm(x, null)) && old(t.Calm(far, null));
  }

  twostate lemma Case4Grades(t: RbTree, new node: RbNode?, new parent: RbNode, new s: RbNode, new far: RbNode)
    requires {parent, s, far} <= old(t.nodes) && (node == null || node in old(t.nodes))
    requires old(t.Shape() && Lacks(t, node, parent)) && node != s
    requires Case4(t, parent, s, far) && old(s.color.Black?)
    ensures t.Graded() && !IsRed(t.root)
  {
    forall x | x in t.nodes
      ensures t.Counted(x) && t.Level(x) && t.Calm(x, null)
    {
      Case4At(t, node, parent, s, far, x);
    }
    assert old(t.Linked(parent)); assert old(t.Linked(s));
  }

  twostate lemma Case4Root(t: RbTree, new parent: RbNode, new s: RbNode, new far: RbNode)
    requires {parent, s, far} <= old(t.nodes) && old(t.Shape() && t.root in t.nodes && !IsRed(t.root))
    requires Case4(t, parent, s, far)
    ensures t.root in t.nodes && !IsRed(t.root)
  {
    assert old(t.Linked(parent)); assert old(t.Linked(s));
  }

  // ----- cases 3 and 4: black sibling with a red inner child only -----

  twostate predicate Case34(t: RbTree, parent: RbNode, s: RbNode, near: RbNode)
    requires {parent, s, near} <= old(t.nodes)
    reads t`root, t`order, t`nodes, t.nodes`left, t.nodes`right, t.nodes`parent, t.nodes`lo, t.nodes`pos, t.nodes`hi, t.nodes`color, t.nodes`bh
  {
    && (SpunRL(t, near, s, parent) || SpunLR(t, near, s, parent))
    && old(near.color.Red?)
    && near.color == old(parent.color) && parent.color.Black? && s.color.Black?
    && (forall x {:trigger x.color} :: x in t.nodes && x !in {s, parent, near} ==> x.color == old(x.color))
    && near.bh == old(parent.bh) && parent.bh == old(parent.bh) - 1
    && (forall x {:trigger x.bh} :: x in t.nodes && x != near && x != parent ==> x.bh == old(x.bh))
  }

  twostate lemma Case34Own(t: RbTree, new node: RbNode?, new parent: RbNode, new s: RbNode, new near: RbNode)
    requires {parent, s, near} <= old(t.nodes) && (node == null || node in old(t.nodes))
    requires old(t.Shape() && Lacks(t, node, parent)) && node != s
    requires Case34(t, parent, s, near) && old(s.color.Black?)
    ensures t.Counted(parent) && t.Level(parent) && t.Counted(s) && t.Level(s) && t.Counted(near) && t.Level(near)
  {
    assert old(t.Linked(parent)); assert old(t.Linked(s)); assert old(t.Linked(near));
    assert old(t.Placed(parent)); assert old(t.Placed(s));
    assert old(t.Counted(s)) && old(t.Level(s)) && old(t.Counted(near)) && old(t.Level(near));
  }

  twostate lemma Case34Other(t: RbTree, new node: RbNode?, new parent: RbNode, new s: RbNode, new near: RbNode, new x: RbNode)
    requires {parent, s, near, x} <= old(t.nodes) && (node == null || node in old(t.nodes)) && x !in {parent, s, near}
    requires old(t.Shape() && Lacks(t, node, parent)) && node != s
    requires Case34(t, parent, s, near) && old(s.color.Black?)
    ensures t.Counted(x) && t.Level(x)
  {
    assert old(t.Linked(parent)); assert old(t.Linked(s)); assert old(t.Linked(near)); assert old(t.Linked(x));
    assert old(t.Placed(parent)); assert old(t.Placed(s)); assert old(t.Placed(x));
    assert old(t.Counted(x)) && old(t.Level(x));
    assert old(t.Counted(s)) && old(t.Level(s)) && old(t.Counted(near)) && old(t.Level(near));
  }

  twostate lemma Case34Calm(t: RbTree, new node: RbNode?, new parent: RbNode, new s: RbNode, new near: RbNode, new x: RbNode)
    requires {parent, s, near, x} <= old(t.nodes) && (node == null || node in old(t.nodes))
    requires old(t.Shape() && Lacks(t, node, parent)) && node != s
    requires Case34(t, parent, s, near) && old(s.color.Black?)
    ensures t.Calm(x, null)
  {
    assert old(t.Linked(parent)); assert old(t.Linked(s)); assert old(t.Linked(near)); assert old(t.Linked(x));
    assert old(t.Placed(parent)); assert old(t.Placed(s)); assert old(t.Placed(x));
    assert old(t.Calm(x, null)) && old(t.Calm(near, null));
  }

  twostate lemma Case34Grades(t: RbTree, new node: RbNode?, new parent: RbNode, new s: RbNode, new near: RbNode)
    requires {parent, s, near} <= old(t.nodes) && (node == null || node in old(t.nodes))
    requires old(t.Shape() && Lacks(t, node, parent)) && node != s
    requires Case34(t, parent, s, near) && old(s.color.Black?)
    ensures t.Graded() && !IsRed(t.root)
  {
    Case34Own(t, node, parent, s, near);
    forall x | x in t.nodes
      ensures t.Counted(x) && t.Level(x) && t.Calm(x, null)
    {
      if x !in {parent, s, near} {
        Case34Other(t, node, parent, s, near, x);
      }
      Case34Calm(t, node, parent, s, near, x);
    }
    assert old(t.Linked(parent)); assert old(t.Linked(s)); assert old(t.Linked(near));
  }

  twostate lemma Case34Root(t: RbTree, new parent: RbNode, new s: RbNode, new near: RbNode)
    requires {parent, s, near} <= old(t.nodes) && old(t.Shape() && t.root in t.nodes && !IsRed(t.root))
    requires Case34(t, parent, s, near)
    ensures t.root in t.nodes && !IsRed(t.root)
  {
    assert old(t.Linked(parent)); assert old(t.Linked(s)); assert old(t.Linked(near));
  }

  /** The colours of case 4: `sibling` takes over from `parent`. */
  method Paint4(t: RbTree, parent: RbNode, sibling: RbNode, far: RbNode)
    requires {parent, sibling, far} <= t.nodes && parent != sibling && parent != far && sibling != far
    modifies t.nodes`color, t.nodes`bh
    ensures sibling.color == old(parent.color) && parent.color.Black? && far.color.Black?
    ensures forall x {:trigger x.color} :: x in t.nodes && x !in {sibling, parent, far} ==> x.color == old(x.color)
    ensures sibling.bh == old(parent.bh) && parent.bh == old(parent.bh) - 1
    ensures forall x {:trigger x.bh} :: x in t.nodes && x != sibling && x != parent ==> x.bh == old(x.bh)
  {
    sibling.color := parent.color;
    parent.color := Black;
    far.color := Black;
    sibling.bh, parent.bh := parent.bh, parent.bh - 1;
  }

  /** Case 1 when `parent` is short on the left. */
  method RedLeft(t: RbTree, parent: RbNode, sibling: RbNode)
    requires t.Shape() && {parent, sibling} <= t.nodes && parent.right == sibling && sibling.color.Red?
    modifies t`root, t.nodes`left, t.nodes`right, t.nodes`parent, t.nodes`lo, t.nodes`hi, t.nodes`color
    ensures t.Shape() && t.nodes == old(t.nodes) && t.order == old(t.order)
    ensures Case1(t, parent, sibling)
  {
    assert t.Linked(sibling); assert t.Placed(sibling); assert t.Placed(parent);
    sibling.color := Black;
    parent.color := Red;
    RotateLeft(t, parent);
  }

  method OuterLeft(t: RbTree, parent: RbNode, sibling: RbNode, sright: RbNode)
    requires t.Shape() && {parent, sibling, sright} <= t.nodes && parent.right == sibling && sibling.right == sright
    requires sright.color.Red?
    modifies t`root, t.nodes`left, t.nodes`right, t.nodes`parent, t.nodes`lo, t.nodes`hi, t.nodes`color, t.nodes`bh
    ensures t.Shape() && t.nodes == old(t.nodes) && t.order == old(t.order)
    ensures Case4(t, parent, sibling, sright)
  {
    assert t.Linked(sibling); assert t.Linked(sright); assert t.Linked(parent);
    assert t.Placed(sright); assert t.Placed(sibling); assert t.Placed(parent);
    Paint4(t, parent, sibling, sright);
    RotateLeft(t, parent);
  }

  method InnerLeft(t: RbTree, parent: RbNode, s: RbNode, sleft: RbNode)
    requires t.Shape() && {parent, s, sleft} <= t.nodes && parent.right == s && s.left == sleft
    requires sleft.color.Red?
    modifies t`root, t.nodes`left, t.nodes`right, t.nodes`parent, t.nodes`lo, t.nodes`hi, t.nodes`color, t.nodes`bh
    ensures t.Shape() && t.nodes == old(t.nodes) && t.order == old(t.order)
    ensures Case34(t, parent, s, sleft)
  {
    assert t.Linked(sleft); assert t.Linked(s); assert t.Linked(parent);
    assert t.Placed(sleft); assert t.Placed(s); assert t.Placed(parent);
    RotateRight(t, s);
    var sright := s;
    var sibling := sleft;
    Paint4(t, parent, sibling, sright);
    RotateLeft(t, parent);
  }

  /** Case 1 when `parent` is short on the right. */
  method RedRight(t: RbTree, parent: RbNode, sibling: RbNode)
    requires t.Shape() && {parent, sibling} <= t.nodes && parent.left == sibling && sibling.color.Red?
    modifies t`root, t.nodes`left, t.nodes`right, t.nodes`parent, t.nodes`lo, t.nodes`hi, t.nodes`color
    ensures t.Shape() && t.nodes == old(t.nodes) && t.order == old(t.order)
    ensures Case1(t, parent, sibling)
  {
    assert t.Linked(sibling); assert t.Placed(sibling); assert t.Placed(parent);
    sibling.color := Black;
    parent.color := Red;
    RotateRight(t, parent);
  }

  method OuterRight(t: RbTree, parent: RbNode, sibling: RbNode, sleft: RbNode)
    requires t.Shape() && {parent, sibling, sleft} <= t.nodes && parent.left == sibling && sibling.left == sleft
    requires sleft.color.Red?
    modifies t`root, t.nodes`left, t.nodes`right, t.nodes`parent, t.nodes`lo, t.nodes`hi, t.nodes`color, t.nodes`bh
    ensures t.Shape() && t.nodes == old(t.nodes) && t.order == old(t.order)
    ensures Case4(t, parent, sibling, sleft)
  {
    assert t.Linked(sibling); assert t.Linked(sleft); assert t.Linked(parent);
    assert t.Placed(sleft); assert t.Placed(sibling); assert t.Placed(parent);
    Paint4(t, parent, sibling, sleft);
    RotateRight(t, parent);
  }

  method InnerRight(t: RbTree, parent: RbNode, s: RbNode, sright: RbNode)
    requires t.Shape() && {parent, s, sright} <= t.nodes && parent.left == s && s.right == sright
    requires sright.color.Red?
    modifies t`root, t.nodes`left, t.nodes`right, t.nodes`parent, t.nodes`lo, t.nodes`hi, t.nodes`color, t.nodes`bh
    ensures t.Shape() && t.nodes == old(t.nodes) && t.order == old(t.order)
    ensures Case34(t, parent, s, sright)
  {
    assert t.Linked(sright); assert t.Linked(s); assert t.Linked(parent);
    assert t.Placed(sright); assert t.Placed(s); assert t.Placed(parent);
    RotateLeft(t, s);
    var sleft := s;
    var sibling := sright;
    Paint4(t, parent, sibling, sleft);
    RotateRight(t, parent);
  }

  /** The two children of the sibling are black and so is `parent`, which is not the root: the gap moves up. */
  predicate Climbs(parent: RbNode, s: RbNode)
    reads parent, s, Cell(s.left)`color, Cell(s.right)`color
  {
    !IsRed(s.left) && !IsRed(s.right) && parent.color.Black? && parent.parent != null
  }

  /** Case 2, and the step up to the parent. */
  method Lower(t: RbTree, node: RbNode?, parent: RbNode, sibling: RbNode, ghost graded: bool) returns (node': RbNode?, parent': RbNode?)
    requires t.Shape() && {parent, sibling} <= t.nodes && (node == null || node in t.nodes) && node != sibling
    requires t.root in t.nodes && !IsRed(t.root)
    requires (parent.left == node && parent.right == sibling) || (parent.left == sibling && parent.right == node)
    requires t.KidsIn(sibling) && !IsRed(sibling.left) && !IsRed(sibling.right)
    requires graded ==> Lacks(t, node, parent) && sibling.color.Black?
    modifies t.nodes`color, t.nodes`bh
    ensures t.root in t.nodes && !IsRed(t.root)
    ensures parent' != null <==> old(Climbs(parent, sibling))
    ensures parent' != null ==> parent' in t.nodes && node' == parent && parent' == parent.parent && OutsideKept(t, parent)
    ensures graded && parent' == null ==> t.Graded()
    ensures graded && parent' != null ==> Lacks(t, node', parent')
  {
    assert t.Linked(sibling); assert t.Linked(parent); assert t.Placed(parent);
    sibling.color := Red;
    parent.bh := parent.bh - 1;
    node', parent' := node, null;
    if parent.color.Red? {
      parent.color := Black;
      if graded {
        Case2Grades(t, node, parent, sibling);
      }
    } else {
      node' := parent;
      parent' := parent.parent;
      Case2Outside(t, node, parent, sibling);
      if parent' != null {
        if graded {
          Case2Climbs(t, node, parent, sibling, parent');
        }
      } else if graded {
        Case2Grades(t, node, parent, sibling);
      }
    }
    Case2Root(t, node, parent, sibling);
  }

  /** Cases 2 to 4 with the gap on the left. */
  method CloseLeft(t: RbTree, node: RbNode?, parent: RbNode, sibling: RbNode, ghost graded: bool) returns (node': RbNode?, parent': RbNode?)
    requires t.Shape() && {parent, sibling} <= t.nodes && (node == null || node in t.nodes) && node != sibling
    requires t.root in t.nodes && !IsRed(t.root)
    requires parent.left == node && parent.right == sibling
    requires graded ==> Lacks(t, node, parent) && sibling.color.Black?
    modifies t`root, t.nodes`left, t.nodes`right, t.nodes`parent, t.nodes`lo, t.nodes`hi, t.nodes`color, t.nodes`bh
    ensures t.Shape() && t.nodes == old(t.nodes) && t.order == old(t.order) && t.root in t.nodes && !IsRed(t.root)
    ensures parent' != null <==> old(Climbs(parent, sibling))
    ensures parent' != null ==> parent' in t.nodes && node' == parent && parent' == parent.parent && OutsideKept(t, parent)
    ensures graded && parent' == null ==> t.Graded()
    ensures graded && parent' != null ==> Lacks(t, node', parent')
  {
    assert t.Linked(sibling);
    node', parent' := node, null;
    var sright := sibling.right;
    if sright == null || sright.color.Black? {
      var sleft := sibling.left;
      if sleft == null || sleft.color.Black? {
        node', parent' := Lower(t, node, parent, sibling, graded);
        return;
      }
      InnerLeft(t, parent, sibling, sleft);
      Case34Root(t, parent, sibling, sleft);
      if graded {
        Case34Grades(t, node, parent, sibling, sleft);
      }
    } else {
      OuterLeft(t, parent, sibling, sright);
      Case4Root(t, parent, sibling, sright);
      if graded {
        Case4Grades(t, node, parent, sibling, sright);
      }
    }
  }

  /** Cases 2 to 4 with the gap on the right. */
  method CloseRight(t: RbTree, node: RbNode?, parent: RbNode, sibling: RbNode, ghost graded: bool) returns (node': RbNode?, parent': RbNode?)
    requires t.Shape() && {parent, sibling} <= t.nodes && (node == null || node in t.nodes) && node != sibling
    requires t.root in t.nodes && !IsRed(t.root)
    requires parent.left == sibling && parent.right == node
    requires graded ==> Lacks(t, node, parent) && sibling.color.Black?
    modifies t`root, t.nodes`left, t.nodes`right, t.nodes`parent, t.nodes`lo, t.nodes`hi, t.nodes`color, t.nodes`bh
    ensures t.Shape() && t.nodes == old(t.nodes) && t.order == old(t.order) && t.root in t.nodes && !IsRed(t.root)
    ensures parent' != null <==> old(Climbs(parent, sibling))
    ensures parent' != null ==> parent' in t.nodes && node' == parent && parent' == parent.parent && OutsideKept(t, parent)
    ensures graded && parent' == null ==> t.Graded()
    ensures graded && parent' != null ==> Lacks(t, node', parent')
  {
    assert t.Linked(sibling);
    node', parent' := node, null;
    var sleft := sibling.left;
    if sleft == null || sleft.color.Black? {
      var sright := sibling.right;
      if sright == null || sright.color.Black? {
        node', parent' := Lower(t, node, parent, sibling, graded);
        return;
      }
      InnerRight(t, parent, sibling, sright);
      Case34Root(t, parent, sibling, sright);
      if graded {
        Case34Grades(t, node, parent, sibling, sright);
      }
    } else {
      OuterRight(t, parent, sibling, sleft);
      Case4Root(t, parent, sibling, sleft);
      if graded {
        Case4Grades(t, node, parent, sibling, sleft);
      }
    }
  }

  /** What a pass at `parent` does: it stops at a missing sibling, ends the loop, or goes on at `parent'`. */
  twostate predicate PassDone(t: RbTree, parent: RbNode, left: bool, new node': RbNode?, new parent': RbNode?, ok: bool)
    requires parent in old(t.nodes) && old(t.Shape())
    reads t, t.nodes
  {
    && (!ok ==> parent' == null && old(Stuck(t, parent, left)))
    && (ok ==> t.Shape() && t.nodes == old(t.nodes) && t.order == old(t.order) && t.root in t.nodes && !IsRed(t.root))
    && (ok && parent' == null ==> !old(Stuck(t, parent, left)))
    && (ok && parent' != null ==>
          (parent' in t.nodes && node' == parent && parent.parent == parent'
           && Stuck(t, parent', IsLeft(parent)) == old(Stuck(t, parent, left))
           && parent'.hi - parent'.lo > old(parent.hi - parent.lo)))
  }

  /** One turn of the loop with the gap on the left; `ok` is false when a missing sibling is dereferenced. */
  method PassLeft(t: RbTree, node: RbNode?, parent: RbNode, ghost graded: bool) returns (node': RbNode?, parent': RbNode?, ok: bool)
    requires t.Shape() && parent in t.nodes && (node == null || node in t.nodes) && parent.left == node
    requires t.root in t.nodes && !IsRed(t.root)
    requires graded ==> Lacks(t, node, parent)
    modifies t`root, t.nodes`left, t.nodes`right, t.nodes`parent, t.nodes`lo, t.nodes`hi, t.nodes`color, t.nodes`bh
    ensures PassDone(t, parent, true, node', parent', ok)
    ensures graded ==> ok && (parent' == null ==> t.Graded()) && (parent' != null ==> Lacks(t, node', parent'))
  {
    if graded {
      SiblingExists(t, node, parent);
    }
    assert t.Linked(parent); assert t.Placed(parent);
    node', parent', ok := node, null, true;
    var sibling := parent.right;
    if sibling == null {
      return node, null, false;
    }
    assert t.Linked(sibling); assert t.Placed(sibling);
    if sibling.color.Red? {
      RedLeft(t, parent, sibling);
      Case1Root(t, parent, sibling);
      if graded {
        Case1KeepsLacks(t, node, parent, sibling);
        SiblingExists(t, node, parent);
      }
      assert t.Linked(parent);
      sibling := parent.right;
      if sibling == null {
        return node, null, false;
      }
      assert t.Placed(parent);
      node', parent' := CloseLeft(t, node, parent, sibling, graded);
    } else {
      node', parent' := CloseLeft(t, node, parent, sibling, graded);
      if parent' != null {
        assert t.Linked(parent); assert t.Placed(parent'); assert t.Placed(parent);
        StuckKept(t, parent, parent');
      }
    }
  }

  /** The same with the gap on the right. */
  method PassRight(t: RbTree, node: RbNode?, parent: RbNode, ghost graded: bool) returns (node': RbNode?, parent': RbNode?, ok: bool)
    requires t.Shape() && parent in t.nodes && (node == null || node in t.nodes) && parent.right == node && parent.left != node
    requires t.root in t.nodes && !IsRed(t.root)
    requires graded ==> Lacks(t, node, parent)
    modifies t`root, t.nodes`left, t.nodes`right, t.nodes`parent, t.nodes`lo, t.nodes`hi, t.nodes`color, t.nodes`bh
    ensures PassDone(t, parent, false, node', parent', ok)
    ensures graded ==> ok && (parent' == null ==> t.Graded()) && (parent' != null ==> Lacks(t, node', parent'))
  {
    if graded {
      SiblingExists(t, node, parent);
    }
    assert t.Linked(parent); assert t.Placed(parent);
    node', parent', ok := node, null, true;
    var sibling := parent.left;
    if sibling == null {
      return node, null, false;
    }
    assert t.Linked(sibling); assert t.Placed(sibling);
    if sibling.color.Red? {
      RedRight(t, parent, sibling);
      Case1Root(t, parent, sibling);
      if graded {
        Case1KeepsLacks(t, node, parent, sibling);
        SiblingExists(t, node, parent);
      }
      assert t.Linked(parent);
      sibling := parent.left;
      if sibling == null {
        return node, null, false;
      }
      assert t.Placed(parent);
      node', parent' := CloseRight(t, node, parent, sibling, graded);
    } else {
      node', parent' := CloseRight(t, node, parent, sibling, graded);
      if parent' != null {
        assert t.Linked(parent); assert t.Placed(parent'); assert t.Placed(parent);
        StuckKept(t, parent, parent');
      }
    }
  }

  /** A node was taken out above `node`: below `parent` (or in the whole tree) one black is missing, unless
      `node` is red and can be turned black. */
  ghost predicate Gap(t: RbTree, node: RbNode?, parent: RbNode?)
    requires (node == null || node in t.nodes) && (parent == null || parent in t.nodes)
    reads t`root, t`nodes, t.nodes`left, t.nodes`right, t.nodes`color, t.nodes`bh
  {
    && (forall x {:trigger t.Counted(x)} :: x in t.nodes && x != parent ==> t.Counted(x))
    && (forall x {:trigger t.Level(x)} :: x in t.nodes && x != parent ==> t.Level(x))
    && (forall x {:trigger t.Calm(x, node)} :: x in t.nodes ==> t.Calm(x, node))
    && (parent == null ==> t.root == node)
    && (parent != null ==> t.root in t.nodes && !IsRed(t.root) && t.KidsIn(parent) && parent.bh == Count(node) + 1)
    && (parent != null ==> (parent.left == node && parent.bh == Count(parent.right)) || (parent.right == node && parent.bh == Count(parent.left)))
  }

  method BlackenNode(t: RbTree, node: RbNode, ghost parent: RbNode?, ghost graded: bool)
    requires t.Shape() && node in t.nodes && (parent == null || parent in t.nodes)
    requires if parent == null then t.root == node else t.root in t.nodes && !IsRed(t.root)
    requires graded ==> Gap(t, node, parent)
    requires node.color.Red?
    modifies node`color
    ensures !IsRed(t.root)
    ensures graded ==> t.Graded()
  {
    assert parent != null ==> t.Linked(parent);
    assert graded ==> node.parent == parent;
    node.color := Black;
    if graded {
      forall x | x in t.nodes
        ensures t.Counted(x) && t.Level(x) && t.Calm(x, null)
      {
        assert t.Linked(x); assert t.Placed(x);
        assert x != parent ==> old(t.Counted(x)) && old(t.Level(x));
        assert old(t.Calm(x, node));
      }
    }
  }

  /** Whether rbt_remove_fixup, called for `n` below `p`, dereferences a missing sibling. */
  ghost predicate Strands(t: RbTree, n: RbNode?, p: RbNode?)
    requires t.Shape() && (p == null || p in t.nodes)
    reads t`root, t`nodes, t`order, t.nodes`left, t.nodes`right, t.nodes`parent, t.nodes`lo, t.nodes`pos, t.nodes`hi, t.nodes`color, Cell(n)`color
  {
    !IsRed(n) && p != null && Stuck(t, p, p.left == n)
  }

  /** rbt_remove_fixup, on any tree: `ok` is false when it dereferences a missing sibling. `graded` says that one black
      node is missing from a tree that was red-black before. */
  method RemoveFixup(t: RbTree, n: RbNode?, p: RbNode?, ghost graded: bool) returns (ok: bool)
    requires t.Shape() && (n == null || n in t.nodes) && (p == null || p in t.nodes)
    requires if p == null then t.root == n else t.root in t.nodes && !IsRed(t.root) && (p.left == n || p.right == n)
    requires graded ==> Gap(t, n, p)
    modifies t`root, t.nodes`left, t.nodes`right, t.nodes`parent, t.nodes`lo, t.nodes`hi, t.nodes`color, t.nodes`bh
    ensures ok <==> !old(Strands(t, n, p))
    ensures ok ==> t.Shape() && t.nodes == old(t.nodes) && t.order == old(t.order) && !IsRed(t.root)
    ensures graded ==> ok && t.Graded()
  {
    ok := true;
    if n != null && n.color.Red? {
      BlackenNode(t, n, p, graded);
      return;
    }
    assert graded ==> forall x {:trigger t.Calm(x, null)} :: x in t.nodes && t.Calm(x, n) ==> t.Calm(x, null);
    if p == null {
      return;
    }
    var node, parent := n, p;
    assert t.Placed(p);
    while true
      invariant t.Shape() && t.nodes == old(t.nodes) && t.order == old(t.order) && t.root in t.nodes && !IsRed(t.root)
      invariant parent != null && parent in t.nodes && (node == null || node in t.nodes) && (parent.left == node || parent.right == node)
      invariant Stuck(t, parent, parent.left == node) == old(Strands(t, n, p))
      invariant graded ==> Lacks(t, node, parent)
      decreases |t.order| - (parent.hi - parent.lo)
    {
      assert t.Placed(parent);
      if parent.left == node {
        node, parent, ok := PassLeft(t, node, parent, graded);
      } else {
        node, parent, ok := PassRight(t, node, parent, graded);
      }
      if parent == null {
        break;
      }
      assert t.Placed(parent); assert t.Linked(node);
    }
  }
}
