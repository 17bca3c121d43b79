/** rbt_insert_fixup of src/rbtree.c. */
module RbInsertFixup {
  import opened RbModel
  import opened RbRotate
  import opened RbSnapshot

  /** The colouring while the loop is at `node`: `sound` says that no black height has been spoiled
      yet; otherwise everything is in order except at and below `node`. */
  ghost predicate Climb(t: RbTree, node: RbNode, sound: bool)
    requires node in t.nodes
    reads t`nodes, t.nodes`left, t.nodes`right, t.nodes`color, t.nodes`bh, t.nodes`lo, t.nodes`pos, t.nodes`hi
  {
    && (forall x {:trigger t.Counted(x)} :: x in t.nodes ==> t.Counted(x))
    && (forall x {:trigger t.Level(x)} :: x in t.nodes && (sound || !Under(x, node)) ==> t.Level(x))
    && (forall x {:trigger t.Calm(x, node)} :: x in t.nodes && (sound || !Under(x, node)) ==> t.Calm(x, node))
  }

  /** The root is black, unless the loop stands on it. */
  ghost predicate RootCalm(t: RbTree, node: RbNode)
    reads t`root, t`nodes, t.nodes`color
  {
    t.root == node || (t.root in t.nodes && !IsRed(t.root))
  }

  /** `w` lies strictly below `node` and its subtrees have different black heights. */
  ghost predicate Spoilt(t: RbTree, node: RbNode, w: RbNode)
    requires node in t.nodes && w in t.nodes
    reads t`nodes, t.nodes`left, t.nodes`right, t.nodes`color, t.nodes`bh, t.nodes`lo, t.nodes`pos, t.nodes`hi
  {
    Under(w, node) && w != node && !t.Level(w)
  }

  /** Only `b` (now black) and `r` (now red) changed colour. */
  twostate predicate Repainted(t: RbTree, b: RbNode, r: RbNode)
    reads t`nodes, t.nodes`color
  {
    && t.nodes == old(t.nodes)
    && b in t.nodes && r in t.nodes && b != r && b.color.Black? && r.color.Red?
    && (forall x {:trigger x.color} :: x in t.nodes && x != b && x != r ==> x.color == old(x.color))
  }

  twostate predicate SameHeights(t: RbTree)
    reads t`nodes, t.nodes`bh
  {
    && t.nodes == old(t.nodes)
    && (forall x {:trigger x.bh} :: x in t.nodes ==> x.bh == old(x.bh))
  }

  // ----- uncle black, node an outer grandchild: one rotation -----

  twostate predicate Outer(t: RbTree, node: RbNode, parent: RbNode, gparent: RbNode)
    requires node in old(t.nodes)
    reads t`root, t`order, t`nodes, t.nodes`left, t.nodes`right, t.nodes`parent, t.nodes`lo, t.nodes`pos, t.nodes`hi, t.nodes`color, t.nodes`bh
  {
    && gparent in t.nodes && t.KidsIn(gparent)
    && ((TurnedRight(t, gparent, parent) && !IsRed(gparent.right))
        || (TurnedLeft(t, gparent, parent) && !IsRed(gparent.left)))
    && node.parent == parent == old(node.parent) && old(parent.color.Red?)
    && Repainted(t, parent, gparent) && SameHeights(t)
  }

  twostate lemma OuterCounts(t: RbTree, new node: RbNode, new parent: RbNode, new gparent: RbNode, new x: RbNode, new sound: bool)
    requires {node, parent, gparent, x} <= old(t.nodes)
    requires old(t.Shape() && Climb(t, node, sound))
    requires Outer(t, node, parent, gparent)
    ensures t.Counted(x)
  {
    assert old(t.Linked(node)); assert old(t.Linked(parent)); assert old(t.Linked(gparent)); assert old(t.Linked(x));
    assert old(t.Placed(node)); assert old(t.Placed(parent)); assert old(t.Placed(gparent));
    assert old(t.Counted(parent)); assert old(t.Counted(gparent)); assert old(t.Counted(x));
    assert old(t.Level(parent)); assert old(t.Level(gparent));
    assert old(t.Calm(parent, node)); assert old(t.Calm(gparent, node));
  }

  twostate lemma OuterLevels(t: RbTree, new node: RbNode, new parent: RbNode, new gparent: RbNode, new x: RbNode, new sound: bool)
    requires {node, parent, gparent, x} <= old(t.nodes)
    requires old(t.Shape() && Climb(t, node, sound))
    requires Outer(t, node, parent, gparent)
    requires sound || !Under(x, parent)
    ensures t.Level(x)
  {
    assert old(t.Linked(node)); assert old(t.Linked(parent)); assert old(t.Linked(gparent)); assert old(t.Linked(x));
    assert old(t.Placed(node)); assert old(t.Placed(parent)); assert old(t.Placed(gparent));
    assert old(t.Counted(parent)); assert old(t.Counted(gparent));
    assert old(t.Level(parent)); assert old(t.Level(gparent)); assert old(t.Level(x));
    assert old(t.Calm(parent, node)); assert old(t.Calm(gparent, node));
    assert old(t.Placed(x));
  }

  twostate lemma OuterCalms(t: RbTree, new node: RbNode, new parent: RbNode, new gparent: RbNode, new x: RbNode, new sound: bool)
    requires {node, parent, gparent, x} <= old(t.nodes)
    requires old(t.Shape() && Climb(t, node, sound))
    requires Outer(t, node, parent, gparent)
    requires sound || !Under(x, parent)
    ensures t.Calm(x, parent)
  {
    assert old(t.Linked(node)); assert old(t.Linked(parent)); assert old(t.Linked(gparent)); assert old(t.Linked(x));
    assert old(t.Placed(node)); assert old(t.Placed(parent)); assert old(t.Placed(gparent));
    assert old(t.Calm(parent, node)); assert old(t.Calm(gparent, node)); assert old(t.Calm(x, node));
    assert old(t.Placed(x));
  }

  twostate lemma OuterSpoilt(t: RbTree, new node: RbNode, new parent: RbNode, new gparent: RbNode, new w: RbNode)
    requires {node, parent, gparent, w} <= old(t.nodes)
    requires old(t.Shape() && Spoilt(t, node, w))
    requires Outer(t, node, parent, gparent)
    ensures Spoilt(t, parent, w)
  {
    assert old(t.Linked(node)); assert old(t.Linked(parent)); assert old(t.Linked(gparent)); assert old(t.Linked(w));
    assert old(t.Placed(node)); assert old(t.Placed(parent)); assert old(t.Placed(gparent)); assert old(t.Placed(w));
    if w.left != null { var l: RbNode := w.left; assert old(t.Placed(l)); }
    if w.right != null { var r: RbNode := w.right; assert old(t.Placed(r)); }
  }

  twostate lemma OuterRoot(t: RbTree, new node: RbNode, new parent: RbNode, new gparent: RbNode)
    requires {node, parent, gparent} <= old(t.nodes)
    requires old(t.Shape() && RootCalm(t, node))
    requires Outer(t, node, parent, gparent)
    ensures RootCalm(t, parent)
  {
    assert old(t.Linked(node)); assert old(t.Linked(parent)); assert old(t.Linked(gparent));
  }

  twostate lemma OuterKeepsClimb(t: RbTree, new node: RbNode, new parent: RbNode, new gparent: RbNode, new sound: bool)
    requires {node, parent, gparent} <= old(t.nodes)
    requires old(t.Shape() && Climb(t, node, sound))
    requires Outer(t, node, parent, gparent)
    ensures Climb(t, parent, sound)
  {
    forall x | x in t.nodes ensures t.Counted(x) { OuterCounts(t, node, parent, gparent, x, sound); }
    forall x | x in t.nodes && (sound || !Under(x, parent)) ensures t.Level(x) { OuterLevels(t, node, parent, gparent, x, sound); }
    forall x | x in t.nodes && (sound || !Under(x, parent)) ensures t.Calm(x, parent) { OuterCalms(t, node, parent, gparent, x, sound); }
  }

  // ----- uncle black, node an inner grandchild: two rotations -----

  twostate predicate Spun(t: RbTree, node: RbNode, parent: RbNode, gparent: RbNode)
    requires {node, parent, gparent} <= old(t.nodes)
    reads t`root, t`order, t`nodes, t.nodes`left, t.nodes`right, t.nodes`parent, t.nodes`lo, t.nodes`pos, t.nodes`hi
  {
    && t.order == old(t.order) && t.nodes == old(t.nodes)
    && node != parent && node != gparent && parent != gparent
    && old(node.parent) == parent && old(parent.parent) == gparent
    && old(gparent.parent) !in {node, parent, gparent}
    && (old(gparent.parent) != null ==> old(gparent.parent) in t.nodes)
    && Replaced(t, old(gparent.parent), gparent, node)
    && node.parent == old(gparent.parent) && parent.parent == node && gparent.parent == node
    && node.lo == old(gparent.lo) && node.hi == old(gparent.hi)
    && (forall x {:trigger x.pos} :: x in t.nodes ==> x.pos == old(x.pos))
    && (forall x {:trigger x.lo} :: x in t.nodes && x !in {node, parent, gparent} ==> x.lo == old(x.lo))
    && (forall x {:trigger x.hi} :: x in t.nodes && x !in {node, parent, gparent} ==> x.hi == old(x.hi))
    && (forall x {:trigger x.left} :: x in t.nodes && x !in {node, parent, gparent} && x != old(gparent.parent) ==> x.left == old(x.left))
    && (forall x {:trigger x.right} :: x in t.nodes && x !in {node, parent, gparent} && x != old(gparent.parent) ==> x.right == old(x.right))
    && (forall x {:trigger x.parent} :: x in t.nodes && x !in {node, parent, gparent} && x != old(node.left) && x != old(node.right) ==> x.parent == old(x.parent))
  }

  twostate predicate SpunLR(t: RbTree, node: RbNode, parent: RbNode, gparent: RbNode)
    requires {node, parent, gparent} <= old(t.nodes)
    reads t`root, t`order, t`nodes, t.nodes`left, t.nodes`right, t.nodes`parent, t.nodes`lo, t.nodes`pos, t.nodes`hi
  {
    && Spun(t, node, parent, gparent)
    && old(gparent.left) == parent && old(parent.right) == node
    && node.left == parent && parent.left == old(parent.left) && parent.right == old(node.left)
    && node.right == gparent && gparent.left == old(node.right) && gparent.right == old(gparent.right)
  }

  twostate predicate SpunRL(t: RbTree, node: RbNode, parent: RbNode, gparent: RbNode)
    requires {node, parent, gparent} <= old(t.nodes)
    reads t`root, t`order, t`nodes, t.nodes`left, t.nodes`right, t.nodes`parent, t.nodes`lo, t.nodes`pos, t.nodes`hi
  {
    && Spun(t, node, parent, gparent)
    && old(gparent.right) == parent && old(parent.left) == node
    && node.right == parent && parent.right == old(parent.right) && parent.left == old(node.right)
    && node.left == gparent && gparent.right == old(node.left) && gparent.left == old(gparent.left)
  }

  method SpinLR(t: RbTree, node: RbNode, parent: RbNode, gparent: RbNode)
    requires t.Shape() && {node, parent, gparent} <= t.nodes
    requires gparent.left == parent && parent.right == node
    modifies t`root, t.nodes`left, t.nodes`right, t.nodes`parent, t.nodes`lo, t.nodes`hi
    ensures t.Shape()
    ensures t.order == old(t.order) && t.nodes == old(t.nodes)
    ensures SpunLR(t, node, parent, gparent)
    ensures SnapshotOf(t) == RotatedRight(RotatedLeft(old(SnapshotOf(t)), parent.pos), gparent.pos)
  {
    hide SnapshotOf, RotatedLeft, RotatedRight;
    assert t.Linked(node); assert t.Linked(parent); assert t.Linked(gparent);
    assert t.Placed(node); assert t.Placed(parent); assert t.Placed(gparent);
    RotateLeftShown(t, parent);
    RotateRightShown(t, gparent);
  }

  method SpinRL(t: RbTree, node: RbNode, parent: RbNode, gparent: RbNode)
    requires t.Shape() && {node, parent, gparent} <= t.nodes
    requires gparent.right == parent && parent.left == node
    modifies t`root, t.nodes`left, t.nodes`right, t.nodes`parent, t.nodes`lo, t.nodes`hi
    ensures t.Shape()
    ensures t.order == old(t.order) && t.nodes == old(t.nodes)
    ensures SpunRL(t, node, parent, gparent)
    ensures SnapshotOf(t) == RotatedLeft(RotatedRight(old(SnapshotOf(t)), parent.pos), gparent.pos)
  {
    hide SnapshotOf, RotatedLeft, RotatedRight;
    assert t.Linked(node); assert t.Linked(parent); assert t.Linked(gparent);
    assert t.Placed(node); assert t.Placed(parent); assert t.Placed(gparent);
    RotateRightShown(t, parent);
    RotateLeftShown(t, gparent);
  }

  twostate predicate Inner(t: RbTree, node: RbNode, parent: RbNode, gparent: RbNode)
    requires {node, parent, gparent} <= old(t.nodes)
    reads t`root, t`order, t`nodes, t.nodes`left, t.nodes`right, t.nodes`parent, t.nodes`lo, t.nodes`pos, t.nodes`hi, t.nodes`color, t.nodes`bh
  {
    && t.nodes == old(t.nodes) && t.KidsIn(gparent) && t.KidsIn(parent) && t.KidsIn(node)
    && ((SpunLR(t, node, parent, gparent) && !IsRed(gparent.right))
        || (SpunRL(t, node, parent, gparent) && !IsRed(gparent.left)))
    && old(parent.color.Red?)
    && Repainted(t, node, gparent)
    && parent.bh == Count(parent.left) && gparent.bh == Count(gparent.left) && node.bh == Count(node.left)
    && (forall x {:trigger x.bh} :: x in t.nodes && x !in {node, parent, gparent} ==> x.bh == old(x.bh))
  }

  twostate lemma InnerCounts(t: RbTree, new node: RbNode, new parent: RbNode, new gparent: RbNode, new x: RbNode, new sound: bool)
    requires {node, parent, gparent, x} <= old(t.nodes)
    requires old(t.Shape() && Climb(t, node, sound))
    requires Inner(t, node, parent, gparent)
    ensures t.Counted(x)
  {
    assert old(t.Linked(node)); assert old(t.Linked(parent)); assert old(t.Linked(gparent)); assert old(t.Linked(x));
    assert old(t.Placed(node)); assert old(t.Placed(parent)); assert old(t.Placed(gparent));
    assert old(t.Counted(node)); assert old(t.Counted(parent)); assert old(t.Counted(gparent)); assert old(t.Counted(x));
    assert old(t.Level(parent)); assert old(t.Level(gparent));
    assert old(t.Calm(gparent, node));
  }

  twostate lemma InnerLevelsOwn(t: RbTree, new node: RbNode, new parent: RbNode, new gparent: RbNode)
    requires {node, parent, gparent} <= old(t.nodes)
    requires old(t.Shape() && Climb(t, node, true) && node.color.Red?)
    requires Inner(t, node, parent, gparent)
    ensures t.Level(node) && t.Level(parent) && t.Level(gparent)
  {
    assert old(t.Linked(node)); assert old(t.Linked(parent)); assert old(t.Linked(gparent));
    assert old(t.Placed(parent)); assert old(t.Placed(gparent));
    assert old(t.Counted(node)); assert old(t.Counted(parent)); assert old(t.Counted(gparent));
    assert old(t.Level(node)); assert old(t.Level(parent)); assert old(t.Level(gparent));
  }

  twostate lemma InnerLevels(t: RbTree, new node: RbNode, new parent: RbNode, new gparent: RbNode, new x: RbNode, new sound: bool)
    requires {node, parent, gparent, x} <= old(t.nodes) && x !in {node, parent, gparent}
    requires old(t.Shape() && Climb(t, node, sound))
    requires Inner(t, node, parent, gparent)
    requires sound || !Under(x, node)
    ensures t.Level(x)
  {
    assert old(t.Linked(node)); assert old(t.Linked(parent)); assert old(t.Linked(gparent)); assert old(t.Linked(x));
    assert old(t.Placed(parent)); assert old(t.Placed(gparent)); assert old(t.Placed(x));
    assert old(t.Counted(gparent)); assert old(t.Counted(parent)); assert old(t.Counted(node));
    assert old(t.Level(parent)); assert old(t.Level(gparent)); assert old(t.Level(x));
    assert old(t.Calm(gparent, node));
  }

  twostate lemma InnerCalms(t: RbTree, new node: RbNode, new parent: RbNode, new gparent: RbNode, new x: RbNode, new sound: bool)
    requires {node, parent, gparent, x} <= old(t.nodes)
    requires old(t.Shape() && Climb(t, node, sound))
    requires Inner(t, node, parent, gparent)
    requires (sound && old(node.color.Red?)) || !Under(x, node)
    ensures t.Calm(x, node)
  {
    assert old(t.Linked(node)); assert old(t.Linked(parent)); assert old(t.Linked(gparent)); assert old(t.Linked(x));
    assert old(t.Placed(node)); assert old(t.Placed(parent)); assert old(t.Placed(gparent)); assert old(t.Placed(x));
    assert old(t.Calm(parent, node)); assert old(t.Calm(gparent, node)); assert old(t.Calm(x, node));
    assert sound ==> old(t.Calm(node, node));
  }

  /** A black `node` makes the double rotation spoil a black height. */
  twostate lemma InnerSpoils(t: RbTree, new node: RbNode, new parent: RbNode, new gparent: RbNode, new sound: bool) returns (w: RbNode)
    requires {node, parent, gparent} <= old(t.nodes)
    requires old(t.Shape() && Climb(t, node, sound))
    requires Inner(t, node, parent, gparent)
    requires old(node.color.Black?)
    ensures w in t.nodes && Spoilt(t, node, w)
  {
    assert old(t.Linked(node)); assert old(t.Linked(parent)); assert old(t.Linked(gparent));
    assert old(t.Placed(node)); assert old(t.Placed(parent)); assert old(t.Placed(gparent));
    assert old(t.Counted(node)); assert old(t.Counted(parent)); assert old(t.Counted(gparent));
    assert old(t.Level(parent)); assert old(t.Level(gparent));
    w := if SpunLR(t, node, parent, gparent) then parent else gparent;
  }

  /** A child of a node below the one that rises is outside the rotation. */
  twostate lemma InnerKid(t: RbTree, new node: RbNode, new parent: RbNode, new gparent: RbNode, new w: RbNode, new e: RbNode?)
    requires {node, parent, gparent, w} <= old(t.nodes)
    requires old(t.Shape() && Under(w, node)) && w != node && Inner(t, node, parent, gparent)
    requires e == old(w.left) || e == old(w.right)
    ensures w !in {node, parent, gparent} && Under(w, node) && w.left == old(w.left) && w.right == old(w.right)
    ensures (e == null || e in t.nodes) && Count(e) == old(Count(e))
  {
    assert old(t.Linked(node)); assert old(t.Linked(parent)); assert old(t.Linked(gparent)); assert old(t.Linked(w));
    assert old(t.Placed(node)); assert old(t.Placed(parent)); assert old(t.Placed(gparent)); assert old(t.Placed(w));
    if e != null {
      assert old(t.Placed(e));
    }
  }

  twostate lemma InnerSpoilt(t: RbTree, new node: RbNode, new parent: RbNode, new gparent: RbNode, new w: RbNode)
    requires {node, parent, gparent, w} <= old(t.nodes)
    requires old(t.Shape() && Spoilt(t, node, w))
    requires Inner(t, node, parent, gparent)
    ensures Spoilt(t, node, w)
  {
    assert t.nodes == old(t.nodes);
    hide Inner, RbTree.Shape, Count;
    InnerKid(t, node, parent, gparent, w, old(w.left));
    InnerKid(t, node, parent, gparent, w, old(w.right));
  }

  twostate lemma InnerRoot(t: RbTree, new node: RbNode, new parent: RbNode, new gparent: RbNode)
    requires {node, parent, gparent} <= old(t.nodes)
    requires old(t.Shape() && RootCalm(t, node))
    requires Inner(t, node, parent, gparent)
    ensures RootCalm(t, node)
  {
    assert old(t.Linked(node)); assert old(t.Linked(parent)); assert old(t.Linked(gparent));
  }

  twostate lemma InnerUnder(t: RbTree, new node: RbNode, new parent: RbNode, new gparent: RbNode)
    requires {node, parent, gparent} <= old(t.nodes)
    requires old(t.Shape()) && Inner(t, node, parent, gparent)
    ensures Under(node, node) && Under(parent, node) && Under(gparent, node)
  {
    assert old(t.Linked(node)); assert old(t.Linked(parent));
    assert old(t.Placed(node)); assert old(t.Placed(parent)); assert old(t.Placed(gparent));
  }

  twostate lemma InnerKeepsLevels(t: RbTree, new node: RbNode, new parent: RbNode, new gparent: RbNode, new sound: bool)
    requires {node, parent, gparent} <= old(t.nodes)
    requires old(t.Shape() && Climb(t, node, sound))
    requires Inner(t, node, parent, gparent)
    ensures forall x {:trigger t.Level(x)} :: x in t.nodes && ((sound && old(node.color.Red?)) || !Under(x, node)) ==> t.Level(x)
  {
    if sound && old(node.color.Red?) {
      InnerLevelsOwn(t, node, parent, gparent);
    }
    InnerUnder(t, node, parent, gparent);
    forall x | x in t.nodes && x !in {node, parent, gparent} && (sound || !Under(x, node)) ensures t.Level(x) {
      InnerLevels(t, node, parent, gparent, x, sound);
    }
  }

  twostate lemma InnerKeepsClimb(t: RbTree, new node: RbNode, new parent: RbNode, new gparent: RbNode, new sound: bool)
    requires {node, parent, gparent} <= old(t.nodes)
    requires old(t.Shape() && Climb(t, node, sound))
    requires Inner(t, node, parent, gparent)
    ensures Climb(t, node, sound && old(node.color.Red?))
  {
    var sound' := sound && old(node.color.Red?);
    forall x | x in t.nodes ensures t.Counted(x) { InnerCounts(t, node, parent, gparent, x, sound); }
    InnerKeepsLevels(t, node, parent, gparent, sound);
    forall x | x in t.nodes && (sound' || !Under(x, node)) ensures t.Calm(x, node) { InnerCalms(t, node, parent, gparent, x, sound); }
  }

  // ----- uncle red: recolouring only -----

  twostate predicate SameLinks(t: RbTree)
    reads t`root, t`order, t`nodes, t.nodes`left, t.nodes`right, t.nodes`parent, t.nodes`lo, t.nodes`pos, t.nodes`hi
  {
    && t.root == old(t.root) && t.order == old(t.order) && t.nodes == old(t.nodes)
    && (forall x {:trigger x.left} :: x in t.nodes ==> x.left == old(x.left))
    && (forall x {:trigger x.right} :: x in t.nodes ==> x.right == old(x.right))
    && (forall x {:trigger x.parent} :: x in t.nodes ==> x.parent == old(x.parent))
    && (forall x {:trigger x.pos} :: x in t.nodes ==> x.pos == old(x.pos))
    && (forall x {:trigger x.lo} :: x in t.nodes ==> x.lo == old(x.lo))
    && (forall x {:trigger x.hi} :: x in t.nodes ==> x.hi == old(x.hi))
  }

  twostate predicate Recoloured(t: RbTree, node: RbNode, parent: RbNode, gparent: RbNode, uncle: RbNode)
    requires {node, parent, gparent, uncle} <= old(t.nodes)
    reads t`root, t`order, t`nodes, t.nodes`left, t.nodes`right, t.nodes`parent, t.nodes`lo, t.nodes`pos, t.nodes`hi, t.nodes`color, t.nodes`bh
  {
    && SameLinks(t)
    && node.parent == parent && parent.parent == gparent && parent != uncle
    && ((gparent.left == parent && gparent.right == uncle) || (gparent.left == uncle && gparent.right == parent))
    && old(parent.color.Red?) && old(uncle.color.Red?)
    && parent.color.Black? && uncle.color.Black? && gparent.color.Red?
    && (forall x {:trigger x.color} :: x in t.nodes && x !in {parent, gparent, uncle} ==> x.color == old(x.color))
    && gparent.bh == old(gparent.bh) + 1
    && (forall x {:trigger x.bh} :: x in t.nodes && x != gparent ==> x.bh == old(x.bh))
  }

  twostate lemma RecolouredAt(t: RbTree, new node: RbNode, new parent: RbNode, new gparent: RbNode, new uncle: RbNode, new x: RbNode, new sound: bool)
    requires {node, parent, gparent, uncle, x} <= old(t.nodes)
    requires old(t.Shape() && Climb(t, node, sound))
    requires Recoloured(t, node, parent, gparent, uncle)
    ensures t.Counted(x)
    ensures sound || !Under(x, gparent) ==> t.Level(x) && t.Calm(x, gparent)
  {
    assert old(t.Linked(node)); assert old(t.Linked(parent)); assert old(t.Linked(gparent)); assert old(t.Linked(uncle)); assert old(t.Linked(x));
    assert old(t.Placed(node)); assert old(t.Placed(parent)); assert old(t.Placed(gparent)); assert old(t.Placed(x));
    assert old(t.Counted(x)); assert old(t.Calm(gparent, node));
    if sound || !Under(x, gparent) {
      assert old(t.Level(x)); assert old(t.Calm(x, node));
    }
  }

  twostate lemma RecolouredKeepsClimb(t: RbTree, new node: RbNode, new parent: RbNode, new gparent: RbNode, new uncle: RbNode, new sound: bool)
    requires {node, parent, gparent, uncle} <= old(t.nodes)
    requires old(t.Shape() && Climb(t, node, sound))
    requires Recoloured(t, node, parent, gparent, uncle)
    ensures Climb(t, gparent, sound)
  {
    forall x | x in t.nodes
      ensures t.Counted(x)
      ensures sound || !Under(x, gparent) ==> t.Level(x) && t.Calm(x, gparent)
    {
      RecolouredAt(t, node, parent, gparent, uncle, x, sound);
    }
  }

  twostate lemma RecolouredSpoilt(t: RbTree, new node: RbNode, new parent: RbNode, new gparent: RbNode, new uncle: RbNode, new w: RbNode)
    requires {node, parent, gparent, uncle, w} <= old(t.nodes)
    requires old(t.Shape() && Spoilt(t, node, w))
    requires Recoloured(t, node, parent, gparent, uncle)
    ensures Spoilt(t, gparent, w)
  {
    assert old(t.Linked(node)); assert old(t.Linked(parent)); assert old(t.Linked(gparent)); assert old(t.Linked(uncle)); assert old(t.Linked(w));
    assert old(t.Placed(node)); assert old(t.Placed(parent)); assert old(t.Placed(gparent)); assert old(t.Placed(w));
    if w.left != null { var l: RbNode := w.left; assert old(t.Placed(l)); }
    if w.right != null { var r: RbNode := w.right; assert old(t.Placed(r)); }
  }

  // ----- when the loop spoils a black height -----

  ghost predicate IsLeft(x: RbNode)
    reads x`parent, Cell(x.parent)`left
  {
    x.parent != null && x.parent.left == x
  }

  /** Whether the loop, standing at the `left` (or right) child of `p` with a red (or black) node, will
      come to rotate twice around a black node. */
  ghost predicate Breaks(t: RbTree, p: RbNode?, left: bool, red: bool)
    requires t.Shape() && (p == null || p in t.nodes)
    reads t`root, t`nodes, t`order, t.nodes`left, t.nodes`right, t.nodes`parent, t.nodes`lo, t.nodes`pos, t.nodes`hi, t.nodes`color
    decreases if p == null then 0 else 1 + |t.order| - (p.hi - p.lo)
  {
    if p == null || p.color.Black? || p.parent == null then
      false
    else
      assert t.Linked(p); assert t.Placed(p);
      var g: RbNode := p.parent;
      assert t.Linked(g); assert t.Placed(g);
      assert g.parent != null ==> t.Placed(g.parent);
      var uncle := if g.left == p then g.right else g.left;
      (!red && !IsRed(uncle) && left != IsLeft(p)) || Breaks(t, g.parent, IsLeft(g), IsRed(uncle))
  }

  /** Nothing outside the subtree at `p` has changed, nor have the colour and the parent of `p`. */
  twostate predicate OutsideKept(t: RbTree, p: RbNode)
    requires p in old(t.nodes)
    reads t`root, t`nodes, t`order, t.nodes`left, t.nodes`right, t.nodes`parent, t.nodes`lo, t.nodes`pos, t.nodes`hi, t.nodes`color
  {
    && t.nodes == old(t.nodes) && t.order == old(t.order)
    && p.color == old(p.color) && p.parent == old(p.parent) && p.lo == old(p.lo) && p.hi == old(p.hi)
    && (forall x {:trigger x.pos} :: x in t.nodes ==> x.pos == old(x.pos))
    && (forall x {:trigger x.color} :: x in t.nodes && !old(Under(x, p)) ==> x.color == old(x.color))
    && (forall x {:trigger x.left} :: x in t.nodes && !old(Under(x, p)) ==> x.left == old(x.left))
    && (forall x {:trigger x.right} :: x in t.nodes && !old(Under(x, p)) ==> x.right == old(x.right))
    && (forall x {:trigger x.parent} :: x in t.nodes && !old(Under(x, p)) ==> x.parent == old(x.parent))
    && (forall x {:trigger x.lo} :: x in t.nodes && !old(Under(x, p)) ==> x.lo == old(x.lo))
    && (forall x {:trigger x.hi} :: x in t.nodes && !old(Under(x, p)) ==> x.hi == old(x.hi))
  }

  twostate lemma OutsideShrinks(t: RbTree, new p: RbNode, new o: RbNode)
    requires p in old(t.nodes) && o in old(t.nodes)
    requires OutsideKept(t, p)
    requires !old(Under(o, p)) && old(o.lo <= p.lo && p.hi <= o.hi)
    ensures OutsideKept(t, o)
  {
  }

  twostate lemma UncleKept(t: RbTree, new p: RbNode, new g: RbNode, new uncle: RbNode?)
    requires p in old(t.nodes) && g in old(t.nodes)
    requires old(t.Shape()) && OutsideKept(t, p)
    requires g == p.parent && uncle == (if g.left == p then g.right else g.left)
    ensures g.parent == old(g.parent) && IsLeft(g) == old(IsLeft(g)) && IsLeft(p) == old(IsLeft(p))
    ensures g.left == old(g.left) && g.right == old(g.right)
    ensures (uncle == null || uncle in old(t.nodes)) && IsRed(uncle) == old(IsRed(uncle))
    ensures g.parent == null || (g.parent in old(t.nodes) && OutsideKept(t, g.parent))
  {
    assert old(t.Linked(p)); assert old(t.Placed(p)); assert old(t.Linked(g)); assert old(t.Placed(g));
    if uncle != null {
      var u: RbNode := uncle;
      assert old(t.Placed(u));
    }
    if g.parent != null {
      var o: RbNode := g.parent;
      assert old(t.Placed(o));
      OutsideShrinks(t, p, o);
    }
  }

  twostate lemma BreaksKept(t: RbTree, new p: RbNode?, new left: bool, new red: bool)
    requires p == null || p in old(t.nodes)
    requires old(t.Shape()) && t.Shape()
    requires p == null || OutsideKept(t, p)
    requires t.nodes == old(t.nodes) && t.order == old(t.order)
    ensures Breaks(t, p, left, red) == old(Breaks(t, p, left, red))
    decreases if p == null then 0 else 1 + |t.order| - (p.hi - p.lo)
  {
    if p != null && p.color.Red? && p.parent != null {
      assert t.Linked(p); assert t.Placed(p);
      var g: RbNode := p.parent;
      assert t.Linked(g); assert t.Placed(g);
      var uncle := if g.left == p then g.right else g.left;
      UncleKept(t, p, g, uncle);
      assert g.parent != null ==> t.Placed(g.parent);
      BreaksKept(t, g.parent, IsLeft(g), IsRed(uncle));
    }
  }

  /** After one pass at `node`, whose grandparent was `gparent`, the loop is at `next` in its place. */
  twostate predicate Passed(t: RbTree, gparent: RbNode, next: RbNode)
    requires gparent in old(t.nodes) && next in old(t.nodes)
    reads t`root, t`order, t`nodes, t.nodes`left, t.nodes`right, t.nodes`parent, t.nodes`lo, t.nodes`pos, t.nodes`hi, t.nodes`color
  {
    && t.nodes == old(t.nodes) && t.order == old(t.order)
    && next.parent == old(gparent.parent)
    && (old(gparent.parent) != null ==> old(gparent.parent) in t.nodes && OutsideKept(t, old(gparent.parent)))
    && IsLeft(next) == old(IsLeft(gparent))
  }

  twostate lemma OuterOutside(t: RbTree, new node: RbNode, new parent: RbNode, new gparent: RbNode, new o: RbNode)
    requires {node, parent, gparent, o} <= old(t.nodes)
    requires old(t.Shape()) && Outer(t, node, parent, gparent) && o == old(gparent.parent)
    ensures OutsideKept(t, o)
  {
    assert old(t.Linked(node)); assert old(t.Linked(parent)); assert old(t.Linked(gparent));
    assert old(t.Placed(gparent)); assert old(t.Placed(parent)); assert old(t.Placed(o));
    var e := if old(parent.left) == node then old(parent.right) else old(parent.left);
    if e != null {
      var e': RbNode := e;
      assert old(t.Placed(e'));
    }
  }

  twostate lemma OuterPassed(t: RbTree, new node: RbNode, new parent: RbNode, new gparent: RbNode)
    requires {node, parent, gparent} <= old(t.nodes)
    requires old(t.Shape()) && t.Shape()
    requires Outer(t, node, parent, gparent)
    ensures Passed(t, gparent, parent)
  {
    assert old(t.Linked(parent)); assert old(t.Linked(gparent));
    if parent.parent != null {
      var o: RbNode := parent.parent;
      assert old(t.Linked(o)); assert old(t.Placed(o));
      OuterOutside(t, node, parent, gparent, o);
    }
  }

  /** The subtrees that change hands in a double rotation lie inside the subtree at the grandparent. */
  twostate lemma InnerInside(t: RbTree, new node: RbNode, new parent: RbNode, new gparent: RbNode, new o: RbNode, new e: RbNode?)
    requires {node, parent, gparent, o} <= old(t.nodes)
    requires old(t.Shape()) && Inner(t, node, parent, gparent) && o == old(gparent.parent)
    requires e == old(node.left) || e == old(node.right)
    ensures e != null ==> e in old(t.nodes) && old(Under(e, o))
    ensures old(Under(node, o)) && old(Under(parent, o)) && old(Under(gparent, o)) && old(Under(o, o)) && o !in {node, parent, gparent} && o != e
  {
    hide Repainted, IsRed;
    assert old(t.Linked(gparent)); assert old(t.Linked(node));
    assert old(t.Placed(node)); assert old(t.Placed(parent)); assert old(t.Placed(gparent)); assert old(t.Placed(o));
    if e != null {
      assert old(t.Placed(e));
    }
  }

  twostate lemma InnerOutside(t: RbTree, new node: RbNode, new parent: RbNode, new gparent: RbNode, new o: RbNode)
    requires {node, parent, gparent, o} <= old(t.nodes)
    requires old(t.Shape()) && Inner(t, node, parent, gparent) && o == old(gparent.parent)
    ensures OutsideKept(t, o)
  {
    hide RbTree.Shape, IsRed;
    InnerInside(t, node, parent, gparent, o, old(node.left));
    InnerInside(t, node, parent, gparent, o, old(node.right));
  }

  twostate lemma InnerPassed(t: RbTree, new node: RbNode, new parent: RbNode, new gparent: RbNode)
    requires {node, parent, gparent} <= old(t.nodes)
    requires old(t.Shape()) && t.Shape()
    requires Inner(t, node, parent, gparent)
    ensures Passed(t, gparent, node)
  {
    assert old(t.Linked(node)); assert old(t.Linked(gparent));
    if node.parent != null {
      var o: RbNode := node.parent;
      assert old(t.Linked(o)); assert old(t.Placed(o));
      InnerOutside(t, node, parent, gparent, o);
    }
  }

  twostate lemma RecolouredPassed(t: RbTree, new node: RbNode, new parent: RbNode, new gparent: RbNode, new uncle: RbNode)
    requires {node, parent, gparent, uncle} <= old(t.nodes)
    requires old(t.Shape()) && t.Shape()
    requires Recoloured(t, node, parent, gparent, uncle)
    ensures Passed(t, gparent, gparent)
  {
    assert old(t.Linked(gparent)); assert old(t.Placed(gparent)); assert old(t.Placed(parent)); assert old(t.Placed(uncle));
    if gparent.parent != null {
      var o: RbNode := gparent.parent;
      assert old(t.Placed(o));
    }
  }

  // ----- the loop -----

  /** `w` is the damage when the loop is no longer sound. */
  ghost predicate State(t: RbTree, node: RbNode, sound: bool, w: RbNode?)
    requires node in t.nodes
    reads t`nodes, t.nodes`left, t.nodes`right, t.nodes`color, t.nodes`bh, t.nodes`lo, t.nodes`pos, t.nodes`hi
  {
    Climb(t, node, sound) && (sound || (w in t.nodes && Spoilt(t, node, w)))
  }

  ghost predicate Doomed(t: RbTree, node: RbNode)
    requires t.Shape() && node in t.nodes
    reads t`root, t`nodes, t`order, t.nodes`left, t.nodes`right, t.nodes`parent, t.nodes`lo, t.nodes`pos, t.nodes`hi, t.nodes`color
  {
    assert t.Linked(node);
    Breaks(t, node.parent, IsLeft(node), IsRed(node))
  }

  twostate predicate Advanced(t: RbTree, node: RbNode, new next: RbNode)
    requires node in old(t.nodes)
    reads t`root, t`nodes, t`order, t.nodes`lo, t.nodes`hi, t.nodes`color
  {
    && t.order == old(t.order) && t.nodes == old(t.nodes) && next in t.nodes
    && RootCalm(t, next)
    && next.hi - next.lo > old(node.hi - node.lo)
  }

  twostate lemma OuterAdvances(t: RbTree, new node: RbNode, new parent: RbNode, new gparent: RbNode, new graded: bool, new sound: bool, new w: RbNode?)
    requires {node, parent, gparent} <= old(t.nodes) && (w == null || w in old(t.nodes))
    requires old(t.Shape() && RootCalm(t, node) && (graded ==> State(t, node, sound, w)))
    requires t.Shape() && Outer(t, node, parent, gparent)
    ensures Advanced(t, node, parent)
    ensures graded ==> State(t, parent, sound, w)
    ensures old(Doomed(t, node)) == Doomed(t, parent)
  {
    OuterRoot(t, node, parent, gparent);
    OuterPassed(t, node, parent, gparent);
    assert t.Linked(parent); assert old(t.Linked(node)); assert old(t.Linked(parent)); assert old(t.Linked(gparent));
    assert old(t.Placed(parent)); assert old(t.Placed(gparent));
    BreaksKept(t, parent.parent, IsLeft(parent), false);
    if graded {
      OuterKeepsClimb(t, node, parent, gparent, sound);
      if !sound {
        OuterSpoilt(t, node, parent, gparent, w);
      }
    }
  }

  twostate lemma InnerAdvances(t: RbTree, new node: RbNode, new parent: RbNode, new gparent: RbNode, new graded: bool, new sound: bool, new w: RbNode?)
    returns (w': RbNode?)
    requires {node, parent, gparent} <= old(t.nodes) && (w == null || w in old(t.nodes))
    requires old(t.Shape() && RootCalm(t, node) && (graded ==> State(t, node, sound, w)))
    requires t.Shape() && Inner(t, node, parent, gparent)
    ensures Advanced(t, node, node)
    ensures w' == null || w' in t.nodes
    ensures graded ==> State(t, node, sound && old(node.color.Red?), w')
    ensures old(node.color.Black?) ==> old(Doomed(t, node))
    ensures old(node.color.Red?) ==> old(Doomed(t, node)) == Doomed(t, node)
  {
    InnerRoot(t, node, parent, gparent);
    InnerPassed(t, node, parent, gparent);
    InnerUnder(t, node, parent, gparent);
    assert t.Linked(node); assert old(t.Linked(node)); assert old(t.Linked(parent)); assert old(t.Linked(gparent));
    assert old(t.Placed(parent)); assert old(t.Placed(gparent));
    BreaksKept(t, node.parent, IsLeft(node), false);
    w' := w;
    if graded {
      InnerKeepsClimb(t, node, parent, gparent, sound);
      if old(node.color.Black?) {
        w' := InnerSpoils(t, node, parent, gparent, sound);
      } else if !sound {
        InnerSpoilt(t, node, parent, gparent, w);
      }
    }
  }

  twostate lemma RecolouredAdvances(t: RbTree, new node: RbNode, new parent: RbNode, new gparent: RbNode, new uncle: RbNode, new graded: bool, new sound: bool, new w: RbNode?)
    requires {node, parent, gparent, uncle} <= old(t.nodes) && (w == null || w in old(t.nodes))
    requires old(t.Shape() && RootCalm(t, node) && (graded ==> State(t, node, sound, w)))
    requires t.Shape() && Recoloured(t, node, parent, gparent, uncle)
    ensures Advanced(t, node, gparent)
    ensures graded ==> State(t, gparent, sound, w)
    ensures old(Doomed(t, node)) == Doomed(t, gparent)
  {
    RecolouredPassed(t, node, parent, gparent, uncle);
    assert t.Linked(gparent); assert old(t.Linked(node)); assert old(t.Linked(parent)); assert old(t.Linked(gparent));
    assert old(t.Placed(parent)); assert old(t.Placed(gparent));
    BreaksKept(t, gparent.parent, IsLeft(gparent), true);
    if graded {
      RecolouredKeepsClimb(t, node, parent, gparent, uncle, sound);
      if !sound {
        RecolouredSpoilt(t, node, parent, gparent, uncle, w);
      }
    }
  }

  method PassOuterLeft(t: RbTree, node: RbNode, parent: RbNode, gparent: RbNode)
    requires t.Shape() && {node, parent, gparent} <= t.nodes
    requires gparent.left == parent && parent.left == node && parent.color.Red?
    requires !IsRed(gparent.right)
    modifies t`root, t.nodes`left, t.nodes`right, t.nodes`parent, t.nodes`lo, t.nodes`hi, t.nodes`color
    ensures t.Shape()
    ensures t.nodes == old(t.nodes) && Outer(t, node, parent, gparent)
    ensures SnapshotOf(t) == Paint(Paint(RotatedRight(old(SnapshotOf(t)), gparent.pos), parent.pos, Black), gparent.pos, Red)
  {
    hide SnapshotOf, RotatedLeft, RotatedRight, Paint;
    assert t.Linked(node); assert t.Linked(parent); assert t.Linked(gparent);
    assert t.Placed(node); assert t.Placed(parent); assert t.Placed(gparent);
    RotateRightShown(t, gparent);
    label turned:
    parent.color := Black;
    gparent.color := Red;
    assert t.Linked(gparent); assert t.Linked(node);
    RepaintedShown@turned(t, parent, gparent);
  }

  method PassOuterRight(t: RbTree, node: RbNode, parent: RbNode, gparent: RbNode)
    requires t.Shape() && {node, parent, gparent} <= t.nodes
    requires gparent.right == parent && parent.right == node && parent.color.Red?
    requires !IsRed(gparent.left)
    modifies t`root, t.nodes`left, t.nodes`right, t.nodes`parent, t.nodes`lo, t.nodes`hi, t.nodes`color
    ensures t.Shape()
    ensures t.nodes == old(t.nodes) && Outer(t, node, parent, gparent)
    ensures SnapshotOf(t) == Paint(Paint(RotatedLeft(old(SnapshotOf(t)), gparent.pos), parent.pos, Black), gparent.pos, Red)
  {
    hide SnapshotOf, RotatedLeft, RotatedRight, Paint;
    assert t.Linked(node); assert t.Linked(parent); assert t.Linked(gparent);
    assert t.Placed(node); assert t.Placed(parent); assert t.Placed(gparent);
    RotateLeftShown(t, gparent);
    label turned:
    parent.color := Black;
    gparent.color := Red;
    assert t.Linked(gparent); assert t.Linked(node);
    RepaintedShown@turned(t, parent, gparent);
  }

  method PaintInner(t: RbTree, node: RbNode, parent: RbNode, gparent: RbNode)
    requires {node, parent, gparent} <= t.nodes && node != parent && node != gparent && parent != gparent
    requires t.KidsIn(node) && t.KidsIn(parent) && t.KidsIn(gparent)
    requires node.left == parent || node.left == gparent
    requires parent.left !in {node, parent, gparent} && gparent.left !in {node, parent, gparent}
    modifies t.nodes`color, t.nodes`bh
    ensures Repainted(t, node, gparent)
    ensures parent.bh == Count(parent.left) && gparent.bh == Count(gparent.left) && node.bh == Count(node.left)
    ensures forall x {:trigger x.bh} :: x in t.nodes && x !in {node, parent, gparent} ==> x.bh == old(x.bh)
  {
    node.color := Black;
    gparent.color := Red;
    parent.bh := Count(parent.left);
    gparent.bh := Count(gparent.left);
    node.bh := Count(node.left);
  }

  method PassInnerLeft(t: RbTree, node: RbNode, parent: RbNode, gparent: RbNode)
    requires t.Shape() && {node, parent, gparent} <= t.nodes
    requires gparent.left == parent && parent.right == node && parent.color.Red?
    requires !IsRed(gparent.right)
    modifies t`root, t.nodes`left, t.nodes`right, t.nodes`parent, t.nodes`lo, t.nodes`hi, t.nodes`color, t.nodes`bh
    ensures t.Shape()
    ensures t.nodes == old(t.nodes) && Inner(t, node, parent, gparent)
    ensures SnapshotOf(t) == Paint(Paint(RotatedRight(RotatedLeft(old(SnapshotOf(t)), parent.pos), gparent.pos), node.pos, Black), gparent.pos, Red)
  {
    hide SnapshotOf, RotatedLeft, RotatedRight, Paint;
    assert t.Linked(gparent); assert t.Linked(parent);
    SpinLR(t, node, parent, gparent);
    assert t.Linked(gparent); assert t.Linked(parent); assert t.Linked(node);
    label spun: PaintInner(t, node, parent, gparent);
    RepaintedShown@spun(t, node, gparent);
  }

  method PassInnerRight(t: RbTree, node: RbNode, parent: RbNode, gparent: RbNode)
    requires t.Shape() && {node, parent, gparent} <= t.nodes
    requires gparent.right == parent && parent.left == node && parent.color.Red?
    requires !IsRed(gparent.left)
    modifies t`root, t.nodes`left, t.nodes`right, t.nodes`parent, t.nodes`lo, t.nodes`hi, t.nodes`color, t.nodes`bh
    ensures t.Shape()
    ensures t.nodes == old(t.nodes) && Inner(t, node, parent, gparent)
    ensures SnapshotOf(t) == Paint(Paint(RotatedLeft(RotatedRight(old(SnapshotOf(t)), parent.pos), gparent.pos), node.pos, Black), gparent.pos, Red)
  {
    hide SnapshotOf, RotatedLeft, RotatedRight, Paint;
    assert t.Linked(gparent); assert t.Linked(parent);
    SpinRL(t, node, parent, gparent);
    assert t.Linked(gparent); assert t.Linked(parent); assert t.Linked(node);
    label spun: PaintInner(t, node, parent, gparent);
    RepaintedShown@spun(t, node, gparent);
  }

  method PassRecolour(t: RbTree, node: RbNode, parent: RbNode, gparent: RbNode, uncle: RbNode)
    requires t.Shape() && {node, parent, gparent, uncle} <= t.nodes
    requires node.parent == parent && parent.parent == gparent && parent != uncle
    requires (gparent.left == parent && gparent.right == uncle) || (gparent.left == uncle && gparent.right == parent)
    requires parent.color.Red? && uncle.color.Red?
    modifies t.nodes`color, t.nodes`bh
    ensures t.nodes == old(t.nodes) && Recoloured(t, node, parent, gparent, uncle)
    ensures t.Shape() && SnapshotOf(t) == Paint(Paint(Paint(old(SnapshotOf(t)), parent.pos, Black), gparent.pos, Red), uncle.pos, Black)
  {
    hide SnapshotOf, Paint;
    assert t.Placed(parent); assert t.Placed(gparent); assert t.Placed(uncle);
    parent.color := Black;
    gparent.color := Red;
    uncle.color := Black;
    gparent.bh := gparent.bh + 1;
    RecolouredShown(t, parent, gparent, uncle);
  }

  /** What a pass at `node` leaves for the next one. */
  twostate predicate Went(t: RbTree, node: RbNode, new next: RbNode, graded: bool, sound: bool, w: RbNode?, sound': bool, new w': RbNode?)
    requires node in old(t.nodes) && old(t.Shape())
    reads t`root, t`order, t`nodes, t.nodes`left, t.nodes`right, t.nodes`parent, t.nodes`lo, t.nodes`pos, t.nodes`hi, t.nodes`color, t.nodes`bh
  {
    && t.Shape() && next in old(t.nodes) && Advanced(t, node, next)
    && (w' == null || w' in t.nodes)
    && (graded ==> State(t, next, sound', w'))
    && (sound' ==> sound && old(Doomed(t, node)) == Doomed(t, next))
    && (sound && !sound' ==> old(Doomed(t, node)))
    && (sound && old(node.color.Red?) ==> sound')
    && SnapshotOf(t) == Pass(old(SnapshotOf(t)), node.pos).0 && next.pos == Pass(old(SnapshotOf(t)), node.pos).1
  }

  method RunOuter(t: RbTree, node: RbNode, parent: RbNode, gparent: RbNode, ghost graded: bool, ghost sound: bool, ghost w: RbNode?)
    requires t.Shape() && {node, parent, gparent} <= t.nodes && RootCalm(t, node) && (w == null || w in t.nodes)
    requires parent.color.Red? && node.parent == parent && parent.parent == gparent
    requires if gparent.left == parent then parent.left == node && !IsRed(gparent.right) else gparent.right == parent && parent.right == node && !IsRed(gparent.left)
    requires graded ==> State(t, node, sound, w)
    modifies t`root, t.nodes`left, t.nodes`right, t.nodes`parent, t.nodes`lo, t.nodes`hi, t.nodes`color
    ensures t.nodes == old(t.nodes) && Went(t, node, parent, graded, sound, w, sound, w)
  {
    hide SnapshotOf, RotatedLeft, RotatedRight, Paint, State, Doomed;
    assert t.Placed(parent); assert t.Placed(gparent); assert t.Linked(parent);
    PassReads(t, node, parent, gparent, if gparent.left == parent then gparent.right else gparent.left);
    if gparent.left == parent {
      PassOuterLeft(t, node, parent, gparent);
    } else {
      PassOuterRight(t, node, parent, gparent);
    }
    OuterAdvances(t, node, parent, gparent, graded, sound, w);
  }

  method RunInner(t: RbTree, node: RbNode, parent: RbNode, gparent: RbNode, ghost graded: bool, ghost sound: bool, ghost w: RbNode?)
    returns (ghost w': RbNode?)
    requires t.Shape() && {node, parent, gparent} <= t.nodes && RootCalm(t, node) && (w == null || w in t.nodes)
    requires parent.color.Red? && node.parent == parent && parent.parent == gparent
    requires if gparent.left == parent then parent.right == node && !IsRed(gparent.right) else gparent.right == parent && parent.left == node && !IsRed(gparent.left)
    requires graded ==> State(t, node, sound, w)
    modifies t`root, t.nodes`left, t.nodes`right, t.nodes`parent, t.nodes`lo, t.nodes`hi, t.nodes`color, t.nodes`bh
    ensures t.nodes == old(t.nodes) && Went(t, node, node, graded, sound, w, sound && old(node.color.Red?), w')
  {
    hide SnapshotOf, RotatedLeft, RotatedRight, Paint, State, Doomed;
    assert t.Placed(parent); assert t.Placed(gparent); assert t.Linked(parent);
    PassReads(t, node, parent, gparent, if gparent.left == parent then gparent.right else gparent.left);
    if gparent.left == parent {
      PassInnerLeft(t, node, parent, gparent);
    } else {
      PassInnerRight(t, node, parent, gparent);
    }
    w' := InnerAdvances(t, node, parent, gparent, graded, sound, w);
  }

  method RunRecolour(t: RbTree, node: RbNode, parent: RbNode, gparent: RbNode, uncle: RbNode, ghost graded: bool, ghost sound: bool, ghost w: RbNode?)
    requires t.Shape() && {node, parent, gparent, uncle} <= t.nodes && RootCalm(t, node) && (w == null || w in t.nodes)
    requires parent.color.Red? && node.parent == parent && parent.parent == gparent && parent != uncle && uncle.color.Red?
    requires (gparent.left == parent && gparent.right == uncle) || (gparent.left == uncle && gparent.right == parent)
    requires graded ==> State(t, node, sound, w)
    modifies t.nodes`color, t.nodes`bh
    ensures t.nodes == old(t.nodes) && Went(t, node, gparent, graded, sound, w, sound, w)
  {
    hide SnapshotOf, Paint, State, Doomed;
    assert t.Placed(parent); assert t.Placed(gparent);
    PassReads(t, node, parent, gparent, uncle);
    PassRecolour(t, node, parent, gparent, uncle);
    RecolouredAdvances(t, node, parent, gparent, uncle, graded, sound, w);
  }

  /** One pass of the loop body, at a red parent. */
  method FixupPass(t: RbTree, node: RbNode, ghost graded: bool, ghost sound: bool, ghost w: RbNode?)
    returns (next: RbNode, ghost sound': bool, ghost w': RbNode?)
    requires t.Shape() && node in t.nodes && node.parent in t.nodes && node.parent.color.Red?
    requires RootCalm(t, node) && (w == null || w in t.nodes)
    requires graded ==> State(t, node, sound, w)
    modifies t`root, t.nodes`left, t.nodes`right, t.nodes`parent, t.nodes`lo, t.nodes`hi, t.nodes`color, t.nodes`bh
    ensures t.nodes == old(t.nodes) && Went(t, node, next, graded, sound, w, sound', w')
  {
    hide Went, State;
    assert t.Linked(node); assert t.Linked(node.parent); assert t.Placed(node.parent);
    sound', w' := sound, w;
    var parent: RbNode := node.parent;
    var gparent: RbNode := parent.parent;
    assert t.Linked(gparent); assert t.Placed(gparent);
    if gparent.left == parent {
      var uncle := gparent.right;
      if uncle != null && uncle.color.Red? {
        RunRecolour(t, node, parent, gparent, uncle, graded, sound, w);
        next := gparent;
      } else {
        if parent.right == node {
          w' := RunInner(t, node, parent, gparent, graded, sound, w);
          sound' := sound && old(node.color.Red?);
          next := node;
        } else {
          RunOuter(t, node, parent, gparent, graded, sound, w);
          next := parent;
        }
      }
    } else {
      var uncle := gparent.left;
      if uncle != null && uncle.color.Red? {
        RunRecolour(t, node, parent, gparent, uncle, graded, sound, w);
        next := gparent;
      } else {
        if parent.left == node {
          w' := RunInner(t, node, parent, gparent, graded, sound, w);
          sound' := sound && old(node.color.Red?);
          next := node;
        } else {
          RunOuter(t, node, parent, gparent, graded, sound, w);
          next := parent;
        }
      }
    }
  }

  /** Turning the root black closes the loop. */
  method BlackenRoot(t: RbTree, ghost node: RbNode, ghost graded: bool, ghost sound: bool, ghost w: RbNode?)
    requires t.Shape() && node in t.nodes && !IsRed(node.parent) && RootCalm(t, node)
    requires node.parent == null || node.parent in t.nodes
    requires graded ==> State(t, node, sound, w)
    requires t.root != null
    modifies t.root`color
    ensures t.root.color.Black?
    ensures graded && sound ==> t.Graded()
    ensures graded && !sound ==> w in t.nodes && !t.Level(w) && forall x {:trigger t.Counted(x)} :: x in t.nodes ==> t.Counted(x)
  {
    t.root.color := Black;
    if graded {
      forall x | x in t.nodes
        ensures t.Counted(x)
        ensures old(t.Level(x)) == t.Level(x)
        ensures sound ==> t.Calm(x, null)
      {
        assert t.Linked(x); assert old(t.Counted(x)); assert t.Linked(node);
        assert sound ==> old(t.Calm(x, node));
      }
      assert sound ==> forall x :: x in t.nodes ==> old(t.Level(x));
    }
  }

  method CloseLoop(t: RbTree, ghost node: RbNode, ghost graded: bool, ghost sound: bool, ghost w: RbNode?)
    requires t.Shape() && node in t.nodes && !IsRed(node.parent) && RootCalm(t, node)
    requires graded ==> State(t, node, sound, w)
    requires t.root != null
    modifies t.root`color
    ensures t.Shape() && t.root.color.Black?
    ensures graded && sound ==> t.Graded()
    ensures graded && !sound ==> w in t.nodes && !t.Level(w) && forall x {:trigger t.Counted(x)} :: x in t.nodes ==> t.Counted(x)
    ensures SnapshotOf(t) == Paint(old(SnapshotOf(t)), t.root.pos, Black)
  {
    hide SnapshotOf, Paint, State;
    assert t.Linked(node);
    BlackenRoot(t, node, graded, sound, w);
    PaintedShown(t, t.root, Black);
  }

  /** A position's entry tells whether the loop goes on. */
  lemma LoopReads(t: RbTree, node: RbNode)
    requires t.Shape() && node in t.nodes
    ensures Get(SnapshotOf(t), node.pos).parent == -1 || !RedAt(SnapshotOf(t), Get(SnapshotOf(t), node.pos).parent) <==> !IsRed(node.parent)
  {
    EntryAt(t, node);
    assert t.Linked(node);
    if node.parent != null {
      EntryAt(t, node.parent);
    }
  }

  lemma LoopIsOver(t: RbTree, node: RbNode, fuel: nat)
    requires t.Shape() && node in t.nodes && !IsRed(node.parent)
    ensures !Doomed(t, node) && Loop(SnapshotOf(t), node.pos, fuel) == SnapshotOf(t)
  {
    assert t.Linked(node);
    LoopReads(t, node);
  }

  method FixupStep(t: RbTree, node: RbNode, ghost graded: bool, ghost sound: bool, ghost w: RbNode?, ghost fuel: nat)
    returns (next: RbNode, ghost sound': bool, ghost w': RbNode?)
    requires t.Shape() && node in t.nodes && node.parent in t.nodes && node.parent.color.Red?
    requires RootCalm(t, node) && (w == null || w in t.nodes)
    requires graded ==> State(t, node, sound, w)
    requires fuel + (node.hi - node.lo) > |t.order|
    modifies t`root, t.nodes`left, t.nodes`right, t.nodes`parent, t.nodes`lo, t.nodes`hi, t.nodes`color, t.nodes`bh
    ensures t.Shape() && t.order == old(t.order) && t.nodes == old(t.nodes) && next in t.nodes && RootCalm(t, next)
    ensures (next.parent == null || next.parent in t.nodes) && (w' == null || w' in t.nodes)
    ensures graded ==> State(t, next, sound', w')
    ensures sound' ==> sound && old(Doomed(t, node)) == Doomed(t, next)
    ensures sound && !sound' ==> old(Doomed(t, node))
    ensures fuel > 0 && old(node.hi - node.lo) < next.hi - next.lo <= |t.order|
    ensures Loop(SnapshotOf(t), next.pos, fuel - 1) == Loop(old(SnapshotOf(t)), node.pos, fuel)
  {
    hide SnapshotOf, Pass, Paint, State, Doomed, RootCalm;
    assert t.Linked(node.parent); assert t.Placed(node.parent); assert t.Placed(node); assert t.Linked(node);
    LoopReads(t, node);
    next, sound', w' := FixupPass(t, node, graded, sound, w);
    assert t.Linked(next); assert t.Placed(next);
  }

  /** The loop. `graded` says that the tree was a red-black tree before the node was linked. */
  method FixupLoop(t: RbTree, n: RbNode, ghost graded: bool) returns (ghost node: RbNode, ghost sound: bool, ghost w: RbNode?)
    requires t.Shape() && n in t.nodes && RootCalm(t, n)
    requires graded ==> State(t, n, true, null)
    modifies t`root, t.nodes`left, t.nodes`right, t.nodes`parent, t.nodes`lo, t.nodes`hi, t.nodes`color, t.nodes`bh
    ensures t.Shape() && t.order == old(t.order) && t.nodes == old(t.nodes)
    ensures node in t.nodes && !IsRed(node.parent) && RootCalm(t, node)
    ensures graded ==> State(t, node, sound, w)
    ensures sound <==> !old(Doomed(t, n))
    ensures SnapshotOf(t) == Loop(old(SnapshotOf(t)), n.pos, |t.order|)
  {
    hide SnapshotOf, Pass, State, Doomed, RootCalm, Loop;
    var cur := n;
    sound, w := true, null;
    ghost var fuel := |t.order|;
    assert t.Linked(cur); assert t.Placed(cur);
    while cur.parent != null && cur.parent.color.Red?
      invariant t.Shape() && t.order == old(t.order) && t.nodes == old(t.nodes)
      invariant cur in t.nodes && RootCalm(t, cur)
      invariant w == null || w in t.nodes
      invariant cur.parent == null || cur.parent in t.nodes
      invariant graded ==> State(t, cur, sound, w)
      invariant sound ==> Doomed(t, cur) == old(Doomed(t, n))
      invariant !sound ==> old(Doomed(t, n))
      invariant 0 < cur.hi - cur.lo <= |t.order| && fuel + (cur.hi - cur.lo) > |t.order|
      invariant Loop(SnapshotOf(t), cur.pos, fuel) == Loop(old(SnapshotOf(t)), n.pos, |t.order|)
      decreases |t.order| - (cur.hi - cur.lo)
    {
      cur, sound, w := FixupStep(t, cur, graded, sound, w, fuel);
      fuel := fuel - 1;
    }
    LoopIsOver(t, cur, fuel);
    node := cur;
  }

  /** rbt_insert_fixup, for a node just linked in red. `graded` says that the tree was a red-black tree before. */
  method InsertFixup(t: RbTree, n: RbNode, ghost graded: bool)
    requires t.Shape() && n in t.nodes && RootCalm(t, n)
    requires graded ==> Climb(t, n, true)
    modifies t`root, t.nodes`left, t.nodes`right, t.nodes`parent, t.nodes`lo, t.nodes`hi, t.nodes`color, t.nodes`bh
    ensures t.Shape() && t.order == old(t.order) && t.nodes == old(t.nodes)
    ensures t.root != null && t.root.color.Black?
    ensures graded && !old(Doomed(t, n)) ==> t.Graded()
    ensures graded && old(Doomed(t, n)) ==>
      (forall x {:trigger t.Counted(x)} :: x in t.nodes ==> t.Counted(x)) && (exists w :: w in t.nodes && !t.Level(w))
    ensures SnapshotOf(t) == Fixed(old(SnapshotOf(t)), n.pos)
  {
    hide SnapshotOf, Loop, Doomed, RootCalm;
    SnapshotSize(t);
    ghost var node, sound, w := FixupLoop(t, n, graded);
    assert t.Placed(node);
    SnapshotSize(t);
    CloseLoop(t, node, graded, sound, w);
  }
}
