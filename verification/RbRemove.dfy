/** rbt_remove of src/rbtree.c. */
module RbRemove {
  import opened RbModel
  import opened RbRotate
  import opened RbCheck
  import opened RbTraverse
  import opened RbRemoveFixup
  import opened RbInsertFixup
  import opened RbStuck

  ghost function Down(v: int, k: int): int
  {
    if v > k then v - 1 else v
  }

  /** Renumbers the members once position `k` is gone. */
  ghost method CloseUp(t: RbTree, k: int)
    modifies t.nodes`lo, t.nodes`pos, t.nodes`hi
    ensures forall x {:trigger x.pos} :: x in t.nodes ==> x.pos == Down(old(x.pos), k)
    ensures forall x {:trigger x.lo} :: x in t.nodes ==> x.lo == Down(old(x.lo), k)
    ensures forall x {:trigger x.hi} :: x in t.nodes ==> x.hi == Down(old(x.hi), k)
  {
    forall x | x in t.nodes {
      x.pos := Down(x.pos, k);
    }
    forall x | x in t.nodes {
      x.lo := Down(x.lo, k);
    }
    forall x | x in t.nodes {
      x.hi := Down(x.hi, k);
    }
  }

  twostate predicate Dropped(t: RbTree, n: RbNode, at: int)
    reads t`order, t`nodes
  {
    && 0 <= at < |old(t.order)| && n in old(t.nodes)
    && t.nodes == old(t.nodes) - {n} && t.order == old(t.order)[..at] + old(t.order)[at + 1..]
  }

  // ----- at most one child -----

  twostate predicate Bypassed(t: RbTree, n: RbNode, y: RbNode?, p: RbNode?, at: int)
    reads t`root, t`order, t`nodes, t.nodes`left, t.nodes`right, t.nodes`parent, t.nodes`lo, t.nodes`pos, t.nodes`hi, Cell(p)`left, Cell(p)`right, Cell(y)`parent
  {
    && Dropped(t, n, at) && at == old(n.pos) && p == old(n.parent) && p != n && y != n && (y == null || y != p)
    && ((old(n.left) == null && y == old(n.right)) || (old(n.right) == null && y == old(n.left)))
    && (p == null || p in t.nodes) && (y == null || y in t.nodes)
    && Replaced(t, p, n, y)
    && (y != null ==> y.parent == p)
    && (forall x {:trigger x.left} :: x in t.nodes && x != p ==> x.left == old(x.left))
    && (forall x {:trigger x.right} :: x in t.nodes && x != p ==> x.right == old(x.right))
    && (forall x {:trigger x.parent} :: x in t.nodes && x != y ==> x.parent == old(x.parent))
    && (forall x {:trigger x.pos} :: x in t.nodes ==> x.pos == Down(old(x.pos), at))
    && (forall x {:trigger x.lo} :: x in t.nodes ==> x.lo == Down(old(x.lo), at))
    && (forall x {:trigger x.hi} :: x in t.nodes ==> x.hi == Down(old(x.hi), at))
  }

  /** The tail of rbt_remove: `y` takes the place of `n` below the parent of `n`. */
  method Substitute(t: RbTree, n: RbNode, y: RbNode?)
    requires n in t.nodes && (y == null || y in t.nodes) && y != n && n.parent != n && (y == null || y != n.parent)
    requires n.parent == null || (n.parent in t.nodes && (n.parent.left == n || n.parent.right == n))
    modifies t`root, t.nodes`left, t.nodes`right, t.nodes`parent
    ensures Replaced(t, old(n.parent), n, y)
    ensures y != null ==> y.parent == old(n.parent)
    ensures forall x {:trigger x.left} :: x in t.nodes && x != old(n.parent) ==> x.left == old(x.left)
    ensures forall x {:trigger x.right} :: x in t.nodes && x != old(n.parent) ==> x.right == old(x.right)
    ensures forall x {:trigger x.parent} :: x in t.nodes && x != y ==> x.parent == old(x.parent)
  {
    if y != null {
      y.parent := n.parent;
    }
    if n.parent != null {
      if n.parent.left == n {
        n.parent.left := y;
      } else {
        n.parent.right := y;
      }
    } else {
      t.root := y;
    }
  }

  method Bypass(t: RbTree, n: RbNode) returns (y: RbNode?)
    requires t.Shape() && n in t.nodes && (n.left == null || n.right == null)
    modifies t`root, t`nodes, t`order, t.nodes`left, t.nodes`right, t.nodes`parent, t.nodes`lo, t.nodes`pos, t.nodes`hi
    ensures y == old(if n.left != null then n.left else n.right)
    ensures Bypassed(t, n, old(if n.left != null then n.left else n.right), old(n.parent), old(n.pos))
  {
    assert t.Linked(n); assert t.Placed(n);
    assert n.parent != null ==> t.Linked(n.parent) && t.Placed(n.parent);
    ghost var at := n.pos;
    y := if n.left != null then n.left else n.right;
    assert y != null ==> t.Placed(y) && t.Linked(y);
    Substitute(t, n, y);
    t.nodes := t.nodes - {n};
    t.order := t.order[..at] + t.order[at + 1..];
    CloseUp(t, at);
  }

  twostate lemma BypassedLinked(t: RbTree, new n: RbNode, new y: RbNode?, new p: RbNode?, new at: int, new x: RbNode)
    requires n in old(t.nodes) && x in t.nodes && x in old(t.nodes) && (y == null || y in old(t.nodes)) && (p == null || p in old(t.nodes))
    requires old(t.Shape()) && Bypassed(t, n, y, p, at)
    ensures t.Linked(x)
  {
    assert old(t.Linked(n)); assert old(t.Linked(x)); assert old(t.Placed(x)); assert old(t.Placed(n));
  }

  twostate lemma BypassedPlaced(t: RbTree, new n: RbNode, new y: RbNode?, new p: RbNode?, new at: int, new x: RbNode)
    requires n in old(t.nodes) && x in t.nodes && x in old(t.nodes) && (y == null || y in old(t.nodes)) && (p == null || p in old(t.nodes))
    requires old(t.Shape()) && Bypassed(t, n, y, p, at)
    ensures t.Placed(x)
  {
    assert old(t.Linked(n)); assert old(t.Placed(n)); assert old(t.Linked(x)); assert old(t.Placed(x));
    assert at < old(x.pos) ==> t.order[x.pos] == old(t.order)[x.pos + 1];
  }

  twostate lemma DroppedIndexed(t: RbTree, new n: RbNode, new at: int)
    requires n in old(t.nodes) && old(t.Shape()) && Dropped(t, n, at) && at == old(n.pos)
    requires forall x {:trigger x.pos} :: x in t.nodes ==> x.pos == Down(old(x.pos), at)
    ensures forall i {:trigger t.order[i]} :: 0 <= i < |t.order| ==> t.order[i] in t.nodes && t.order[i].pos == i
  {
    forall i {:trigger t.order[i]} | 0 <= i < |t.order|
      ensures t.order[i] in t.nodes && t.order[i].pos == i
    {
      var j := if i < at then i else i + 1;
      assert t.order[i] == old(t.order)[j];
      assert old(t.order[j].pos) == j;
    }
  }

  twostate lemma DroppedSorted(t: RbTree, new n: RbNode, new at: int)
    requires n in old(t.nodes) && old(t.Sorted()) && Dropped(t, n, at)
    ensures t.Sorted()
  {
  }

  twostate lemma BypassedShape(t: RbTree, new n: RbNode, new y: RbNode?, new p: RbNode?, new at: int)
    requires n in old(t.nodes) && (y == null || y in old(t.nodes)) && (p == null || p in old(t.nodes))
    requires old(t.Shape()) && Bypassed(t, n, y, p, at)
    ensures t.Shape()
  {
    forall x | x in t.nodes ensures t.Linked(x) { BypassedLinked(t, n, y, p, at, x); }
    forall x | x in t.nodes ensures t.Placed(x) { BypassedPlaced(t, n, y, p, at, x); }
    DroppedIndexed(t, n, at);
    assert old(t.Linked(n)) && old(t.Placed(n));
    if p != null {
      var p': RbNode := p;
      assert old(t.Placed(p'));
    }
  }

  twostate predicate SamePaint(t: RbTree)
    reads t`nodes, t.nodes`color, t.nodes`bh
  {
    && t.nodes <= old(t.nodes)
    && (forall x {:trigger x.color} :: x in t.nodes ==> x.color == old(x.color))
    && (forall x {:trigger x.bh} :: x in t.nodes ==> x.bh == old(x.bh))
  }

  twostate lemma BypassedAt(t: RbTree, new n: RbNode, new y: RbNode?, new p: RbNode?, new at: int, new x: RbNode)
    requires n in old(t.nodes) && (y == null || y in old(t.nodes)) && (p == null || p in old(t.nodes))
    requires x in t.nodes && x in old(t.nodes)
    requires old(t.Shape() && t.Graded()) && Bypassed(t, n, y, p, at) && SamePaint(t)
    ensures x != p || old(n.color.Red?) ==> t.Counted(x) && t.Level(x)
    ensures t.Calm(x, if old(n.color.Red?) then null else y)
    ensures x == p && old(n.color.Black?) ==> t.KidsIn(x) && x.bh == Count(y) + 1
    ensures x == p && old(n.color.Black?) ==> (x.left == y && x.bh == Count(x.right)) || (x.right == y && x.bh == Count(x.left))
  {
    assert old(t.Linked(n)); assert old(t.Linked(x)); assert old(t.Placed(x));
    assert old(t.Counted(n)); assert old(t.Level(n)); assert old(t.Calm(n, null));
    assert old(t.Counted(x)); assert old(t.Level(x)); assert old(t.Calm(x, null));
  }

  twostate lemma BypassedRoot(t: RbTree, new n: RbNode, new y: RbNode?, new p: RbNode?, new at: int)
    requires n in old(t.nodes) && (y == null || y in old(t.nodes)) && (p == null || p in old(t.nodes))
    requires old(t.Shape() && !IsRed(t.root)) && Bypassed(t, n, y, p, at) && SamePaint(t)
    ensures p == null ==> t.root == y && old(n.color.Black?)
    ensures p != null ==> t.root in t.nodes && !IsRed(t.root)
  {
    assert old(t.Linked(n));
  }

  twostate lemma BypassedGap(t: RbTree, new n: RbNode, new y: RbNode?, new p: RbNode?, new at: int)
    requires n in old(t.nodes) && (y == null || y in old(t.nodes)) && (p == null || p in old(t.nodes))
    requires old(t.Shape() && t.Graded() && !IsRed(t.root)) && Bypassed(t, n, y, p, at) && SamePaint(t)
    ensures old(n.color.Black?) ==> Gap(t, y, p)
    ensures old(n.color.Red?) ==> t.Graded() && !IsRed(t.root)
  {
    forall x | x in t.nodes
      ensures x != p || old(n.color.Red?) ==> t.Counted(x) && t.Level(x)
      ensures t.Calm(x, if old(n.color.Red?) then null else y)
      ensures x == p && old(n.color.Black?) ==> t.KidsIn(x) && x.bh == Count(y) + 1
      ensures x == p && old(n.color.Black?) ==> (x.left == y && x.bh == Count(x.right)) || (x.right == y && x.bh == Count(x.left))
    {
      BypassedAt(t, n, y, p, at, x);
    }
    BypassedRoot(t, n, y, p, at);
  }

  twostate lemma BypassedSibling(t: RbTree, new n: RbNode, new y: RbNode?, new p: RbNode?, new at: int, new q: RbNode, new left: bool, new s: RbNode?)
    requires n in old(t.nodes) && (y == null || y in old(t.nodes)) && (p == null || p in old(t.nodes)) && q in t.nodes && q in old(t.nodes)
    requires old(t.Shape()) && Bypassed(t, n, y, p, at) && SamePaint(t)
    requires old(Under(n, q)) && (if left then at < old(q.pos) else at > old(q.pos)) && s == old(if left then q.right else q.left)
    ensures s == (if left then q.right else q.left)
    ensures s == null || (s in old(t.nodes) && s in t.nodes && s.left == old(s.left) && s.right == old(s.right))
    ensures s == null || (IsRed(s.left) == old(IsRed(s.left)) && IsRed(s.right) == old(IsRed(s.right)))
  {
    assert old(t.Linked(n)); assert old(t.Placed(n)); assert old(t.Linked(q)); assert old(t.Placed(q));
    if p != null {
      var p': RbNode := p;
      assert old(t.Placed(p')); assert old(t.Linked(p'));
    }
    if s != null {
      var s': RbNode := s;
      assert old(t.Placed(s')); assert old(t.Linked(s'));
      if old(s'.left) != null { var l: RbNode := old(s'.left); assert old(t.Placed(l)); }
      if old(s'.right) != null { var r: RbNode := old(s'.right); assert old(t.Placed(r)); }
    }
  }

  twostate lemma BypassedParent(t: RbTree, new n: RbNode, new y: RbNode?, new p: RbNode?, new at: int, new q: RbNode)
    requires n in old(t.nodes) && (y == null || y in old(t.nodes)) && (p == null || p in old(t.nodes)) && q in t.nodes && q in old(t.nodes)
    requires old(t.Shape()) && Bypassed(t, n, y, p, at)
    requires old(Under(n, q))
    ensures q.parent == old(q.parent) && IsLeft(q) == old(IsLeft(q))
    ensures q.parent == null || (q.parent in t.nodes && q.parent in old(t.nodes) && old(Under(n, q.parent)))
    ensures q.parent == null || (if old(IsLeft(q)) then at < old(q.parent.pos) else at > old(q.parent.pos))
  {
    assert old(t.Linked(n)); assert old(t.Placed(n)); assert old(t.Linked(q)); assert old(t.Placed(q));
    if p != null {
      var p': RbNode := p;
      assert old(t.Placed(p')); assert old(t.Linked(p'));
    }
    if old(q.parent) != null {
      var g: RbNode := old(q.parent);
      assert old(t.Placed(g)); assert old(t.Linked(g));
    }
  }

  /** Taking `n` out does not touch what decides about the loop above it. */
  twostate lemma BypassedStuck(t: RbTree, new n: RbNode, new y: RbNode?, new p: RbNode?, new at: int, new q: RbNode, new left: bool)
    requires n in old(t.nodes) && (y == null || y in old(t.nodes)) && (p == null || p in old(t.nodes)) && q in t.nodes && q in old(t.nodes)
    requires old(t.Shape()) && t.Shape() && Bypassed(t, n, y, p, at) && SamePaint(t)
    requires old(Under(n, q)) && (if left then at < old(q.pos) else at > old(q.pos))
    ensures Stuck(t, q, left) == old(Stuck(t, q, left))
    decreases |t.order| - (q.hi - q.lo)
  {
    assert t.Linked(q); assert t.Placed(q); assert old(t.Linked(q)); assert old(t.Placed(q));
    BypassedSibling(t, n, y, p, at, q, left, old(if left then q.right else q.left));
    BypassedParent(t, n, y, p, at, q);
    if q.parent != null {
      var g: RbNode := q.parent;
      assert t.Placed(g);
      BypassedStuck(t, n, y, p, at, g, IsLeft(q));
    }
  }

  twostate lemma BypassedStrands(t: RbTree, new n: RbNode, new y: RbNode?, new p: RbNode, new at: int)
    requires n in old(t.nodes) && (y == null || y in old(t.nodes)) && p in old(t.nodes) && p in t.nodes
    requires old(t.Shape()) && t.Shape() && Bypassed(t, n, y, p, at) && SamePaint(t)
    ensures Strands(t, y, p) == old(!IsRed(y) && Stuck(t, p, IsLeft(n)))
  {
    assert old(t.Linked(n)); assert old(t.Placed(n)); assert old(t.Placed(p)); assert old(t.Linked(p));
    assert t.Linked(p); assert t.Placed(p);
    BypassedStuck(t, n, y, p, at, p, old(IsLeft(n)));
    if y != null {
      var y': RbNode := y;
      assert t.Placed(y');
    }
  }

  // ----- two children: the successor `y` moves into the place of `n` -----

  twostate predicate Grafted(t: RbTree, n: RbNode, y: RbNode, up: RbNode, p: RbNode?, at: int)
    requires {n, y, up} <= old(t.nodes)
    reads t`root, t`order, t`nodes, t.nodes`left, t.nodes`right, t.nodes`parent, t.nodes`lo, t.nodes`pos, t.nodes`hi
  {
    && Dropped(t, n, at) && at == old(n.pos) && {y, up} <= t.nodes
    && p == old(n.parent) && p !in {n, y, up} && (p == null || p in t.nodes)
    && old(n.left) in t.nodes && old(n.right) in t.nodes
    && old(y.left) == null && old(y.pos) == at + 1
    && Replaced(t, p, n, y) && y.parent == p
    && y.left == old(n.left) && y.left.parent == y
    && (old(y.right) == null || (old(y.right) in t.nodes && old(y.right).parent == up))
    && (if up == y then
          y == old(n.right) && y.right == old(y.right)
        else
          up == old(y.parent) && up != n && old(up.left) == y && up.left == old(y.right) && up.right == old(up.right)
          && y.right == old(n.right) && y.right.parent == y && y != old(n.right))
    && (forall x {:trigger x.left} :: x in t.nodes && x != y && x != up && x != p ==> x.left == old(x.left))
    && (forall x {:trigger x.right} :: x in t.nodes && x != y && x != p ==> x.right == old(x.right))
    && (forall x {:trigger x.parent} :: x in t.nodes && x !in {y, old(n.left), old(n.right), old(y.right)} ==> x.parent == old(x.parent))
    && (old(n.right) != y && old(n.right) != old(y.right) ==> old(n.right).parent == y)
    && y.lo == old(n.lo) && y.pos == at && y.hi == old(n.hi) - 1
    && (forall x {:trigger x.pos} :: x in t.nodes && x != y ==> x.pos == Down(old(x.pos), at + 1))
    && (forall x {:trigger x.lo} :: x in t.nodes && x != y ==> x.lo == Down(old(x.lo), at + 1))
    && (forall x {:trigger x.hi} :: x in t.nodes && x != y ==> x.hi == Down(old(x.hi), at + 1))
  }

  /** The leftmost node to the right of `n`. */
  method Successor(t: RbTree, n: RbNode) returns (y: RbNode)
    requires t.Shape() && n in t.nodes && n.right != null
    ensures y in t.nodes && y.left == null && y.pos == n.pos + 1
    ensures y != n.right ==> y.parent in t.nodes && y.parent != n && y.parent.left == y && y.parent.pos > y.pos && y.parent.hi <= n.hi
  {
    assert t.Linked(n); assert t.Placed(n);
    y := n.right;
    assert t.Linked(y); assert t.Placed(y);
    while y.left != null
      invariant y in t.nodes && y.lo == n.pos + 1 && y.hi <= n.hi
      invariant t.Placed(y) && t.Linked(y)
      invariant y != n.right ==> y.parent in t.nodes && y.parent != n && y.parent.left == y && y.parent.pos >= y.hi && y.parent.hi <= n.hi
      decreases y.hi - y.lo
    {
      y := y.left;
      assert t.Linked(y); assert t.Placed(y);
    }
  }

  /** Takes the numbers of `n` for `y` and forgets `n`. */
  ghost method Inherit(t: RbTree, n: RbNode, y: RbNode)
    requires n in t.nodes && y in t.nodes && y != n && 0 <= n.pos < |t.order|
    modifies t`nodes, t`order, t.nodes`lo, t.nodes`pos, t.nodes`hi
    ensures Dropped(t, n, old(n.pos))
    ensures y.lo == old(n.lo) && y.pos == old(n.pos) && y.hi == old(n.hi) - 1
    ensures forall x {:trigger x.pos} :: x in t.nodes && x != y ==> x.pos == Down(old(x.pos), old(n.pos) + 1)
    ensures forall x {:trigger x.lo} :: x in t.nodes && x != y ==> x.lo == Down(old(x.lo), old(n.pos) + 1)
    ensures forall x {:trigger x.hi} :: x in t.nodes && x != y ==> x.hi == Down(old(x.hi), old(n.pos) + 1)
  {
    var lo, at, hi := n.lo, n.pos, n.hi;
    t.nodes := t.nodes - {n};
    t.order := t.order[..at] + t.order[at + 1..];
    CloseUp(t, at + 1);
    y.lo, y.pos, y.hi := lo, at, hi - 1;
  }

  /** `y` is the right child of `n`. */
  method GraftNear(t: RbTree, n: RbNode, y: RbNode)
    requires t.Shape() && {n, y} <= t.nodes && n.left != null && n.right == y && y.left == null
    modifies t`root, t`nodes, t`order, t.nodes`left, t.nodes`right, t.nodes`parent, t.nodes`lo, t.nodes`pos, t.nodes`hi
    ensures Grafted(t, n, y, y, old(n.parent), old(n.pos))
  {
    assert t.Linked(n); assert t.Linked(y); assert t.Placed(n); assert t.Placed(y);
    ghost var l: RbNode := n.left;
    assert t.Linked(l); assert t.Placed(l);
    if y.right != null {
      ghost var e: RbNode := y.right;
      assert t.Linked(e); assert t.Placed(e);
    }
    if n.parent != null {
      ghost var p: RbNode := n.parent;
      assert t.Placed(p);
    }
    y.left := n.left;
    y.left.parent := y;
    Substitute(t, n, y);
    Inherit(t, n, y);
  }

  /** Takes `y` from below `up` and gives it the children of `n`. */
  method Uproot(t: RbTree, n: RbNode, y: RbNode, up: RbNode)
    requires {n, y, up} <= t.nodes && n.left in t.nodes && n.right in t.nodes && y.parent == up
    requires y != n && up != y && up != n && n.left !in {n, y, up} && n.right !in {n, y} && n.left != n.right
    requires y.right == null || (y.right in t.nodes && y.right !in {n, y, up, n.left, n.right})
    modifies t.nodes`left, t.nodes`right, t.nodes`parent
    ensures up.left == old(y.right) && up.right == old(up.right)
    ensures old(y.right) != null ==> old(y.right).parent == up
    ensures y.left == old(n.left) && y.left.parent == y && y.right == old(n.right) && y.right.parent == y && y.parent == up
    ensures forall x {:trigger x.left} :: x in t.nodes && x != y && x != up ==> x.left == old(x.left)
    ensures forall x {:trigger x.right} :: x in t.nodes && x != y ==> x.right == old(x.right)
    ensures forall x {:trigger x.parent} :: x in t.nodes && x !in {old(n.left), old(n.right), old(y.right)} ==> x.parent == old(x.parent)
  {
    y.parent.left := y.right;
    if y.right != null {
      y.right.parent := y.parent;
    }
    y.left := n.left;
    y.left.parent := y;
    y.right := n.right;
    y.right.parent := y;
  }

  /** `y` lies deeper. */
  method GraftFar(t: RbTree, n: RbNode, y: RbNode)
    requires t.Shape() && {n, y} <= t.nodes && n.left != null && n.right in t.nodes && n.right != y && y.left == null
    requires y.pos == n.pos + 1 && y.parent in t.nodes && y.parent != n && y.parent.left == y && y.parent.pos > y.pos && y.parent.hi <= n.hi
    modifies t`root, t`nodes, t`order, t.nodes`left, t.nodes`right, t.nodes`parent, t.nodes`lo, t.nodes`pos, t.nodes`hi
    ensures old(y.parent) in t.nodes && Grafted(t, n, y, old(y.parent), old(n.parent), old(n.pos))
  {
    assert t.Linked(n); assert t.Linked(y); assert t.Placed(n); assert t.Placed(y); assert t.Placed(y.parent);
    ghost var l: RbNode := n.left;
    assert t.Linked(l); assert t.Placed(l);
    ghost var r: RbNode := n.right;
    assert t.Linked(r); assert t.Placed(r);
    if y.right != null {
      ghost var e: RbNode := y.right;
      assert t.Linked(e); assert t.Placed(e);
    }
    if n.parent != null {
      ghost var p: RbNode := n.parent;
      assert t.Placed(p);
    }
    Uproot(t, n, y, y.parent);
    Substitute(t, n, y);
    Inherit(t, n, y);
  }

  twostate lemma GraftedLinked(t: RbTree, new n: RbNode, new y: RbNode, new up: RbNode, new p: RbNode?, new at: int, new x: RbNode)
    requires x in old(t.nodes) && x in t.nodes
    requires {n, y, up} <= old(t.nodes) && (p == null || p in old(t.nodes))
    requires old(t.Shape()) && Grafted(t, n, y, up, p, at)
    ensures t.Linked(x)
  {
    assert old(t.Linked(n)); assert old(t.Linked(y)); assert old(t.Linked(x));
    assert old(t.Placed(n)); assert old(t.Placed(y)); assert old(t.Placed(x)); assert old(t.Placed(up));
  }

  twostate lemma GraftedPlaced(t: RbTree, new n: RbNode, new y: RbNode, new up: RbNode, new p: RbNode?, new at: int, new x: RbNode)
    requires x in old(t.nodes) && x in t.nodes
    requires {n, y, up} <= old(t.nodes) && (p == null || p in old(t.nodes))
    requires old(t.Shape()) && Grafted(t, n, y, up, p, at)
    ensures t.Placed(x)
  {
    assert old(t.Linked(n)); assert old(t.Linked(y)); assert old(t.Linked(x));
    assert old(t.Placed(n)); assert old(t.Placed(y)); assert old(t.Placed(x));
    var r: RbNode := old(n.right);
    assert old(t.Placed(r));
    assert x.pos < |t.order| && t.order[x.pos] == old(t.order)[if x.pos < at then x.pos else x.pos + 1];
  }

  twostate lemma GraftedIndexed(t: RbTree, new n: RbNode, new y: RbNode, new up: RbNode, new p: RbNode?, new at: int)
    requires {n, y, up} <= old(t.nodes) && (p == null || p in old(t.nodes))
    requires old(t.Shape()) && Grafted(t, n, y, up, p, at)
    ensures forall i {:trigger t.order[i]} :: 0 <= i < |t.order| ==> t.order[i] in t.nodes && t.order[i].pos == i
  {
    assert old(t.Placed(y));
    forall i {:trigger t.order[i]} | 0 <= i < |t.order|
      ensures t.order[i] in t.nodes && t.order[i].pos == i
    {
      var j := if i < at then i else i + 1;
      assert t.order[i] == old(t.order)[j];
      assert old(t.order[j].pos) == j;
    }
  }

  twostate lemma GraftedRoot(t: RbTree, new n: RbNode, new y: RbNode, new up: RbNode, new p: RbNode?, new at: int)
    requires {n, y, up} <= old(t.nodes) && (p == null || p in old(t.nodes))
    requires old(t.Shape()) && Grafted(t, n, y, up, p, at)
    ensures t.order != [] && t.root in t.nodes && t.root.parent == null
  {
    assert old(t.Linked(n)) && old(t.Linked(y)) && old(t.Placed(n)) && old(t.Placed(y));
  }

  twostate lemma GraftedShape(t: RbTree, new n: RbNode, new y: RbNode, new up: RbNode, new p: RbNode?, new at: int)
    requires {n, y, up} <= old(t.nodes) && (p == null || p in old(t.nodes))
    requires old(t.Shape()) && Grafted(t, n, y, up, p, at)
    ensures t.Shape()
  {
    forall x | x in t.nodes ensures t.Linked(x) { GraftedLinked(t, n, y, up, p, at, x); }
    forall x | x in t.nodes ensures t.Placed(x) { GraftedPlaced(t, n, y, up, p, at, x); }
    GraftedIndexed(t, n, y, up, p, at);
    GraftedRoot(t, n, y, up, p, at);
  }

  /** `y` has the colour and the black height of `n`; the others keep theirs. */
  twostate predicate Recast(t: RbTree, n: RbNode, y: RbNode)
    requires y in t.nodes
    reads t`nodes, t.nodes`color, t.nodes`bh
  {
    && t.nodes <= old(t.nodes) && y.color == old(n.color) && y.bh == old(n.bh)
    && (forall x {:trigger x.color} :: x in t.nodes && x != y ==> x.color == old(x.color))
    && (forall x {:trigger x.bh} :: x in t.nodes && x != y ==> x.bh == old(x.bh))
  }

  twostate lemma GraftedAtY(t: RbTree, new n: RbNode, new y: RbNode, new up: RbNode, new p: RbNode?, new at: int)
    requires {n, y, up} <= old(t.nodes) && (p == null || p in old(t.nodes))
    requires old(t.Shape() && t.Graded() && !IsRed(t.root)) && Grafted(t, n, y, up, p, at) && Recast(t, n, y)
    ensures t.Counted(y) && (up != y || old(y.color.Red?) ==> t.Level(y))
    ensures t.Calm(y, if old(y.color.Red?) then null else old(y.right))
    ensures up == y && old(y.color.Black?) ==> y.bh == Count(old(y.right)) + 1
  {
    assert old(t.Linked(n)); assert old(t.Linked(y)); assert old(t.Placed(n));
    assert old(t.Counted(n)); assert old(t.Level(n)); assert old(t.Calm(n, null));
    assert old(t.Counted(y)); assert old(t.Level(y)); assert old(t.Calm(y, null));
  }

  twostate lemma GraftedAtUp(t: RbTree, new n: RbNode, new y: RbNode, new up: RbNode, new p: RbNode?, new at: int)
    requires {n, y, up} <= old(t.nodes) && (p == null || p in old(t.nodes))
    requires old(t.Shape() && t.Graded() && !IsRed(t.root)) && Grafted(t, n, y, up, p, at) && Recast(t, n, y)
    requires up != y
    ensures t.Counted(up) || old(y.color.Black?)
    ensures t.Level(up) || old(y.color.Black?)
    ensures t.Calm(up, if old(y.color.Red?) then null else old(y.right))
    ensures old(y.color.Black?) ==> t.KidsIn(up) && up.bh == Count(old(y.right)) + 1 && up.bh == Count(up.right)
  {
    assert old(t.Linked(y)); assert old(t.Linked(up)); assert old(t.Placed(up));
    assert old(t.Counted(y)); assert old(t.Level(y)); assert old(t.Calm(y, null));
    assert old(t.Counted(up)); assert old(t.Level(up)); assert old(t.Calm(up, null));
  }

  twostate lemma GraftedAt(t: RbTree, new n: RbNode, new y: RbNode, new up: RbNode, new p: RbNode?, new at: int, new x: RbNode)
    requires x in old(t.nodes) && x in t.nodes && x != up && x != y
    requires {n, y, up} <= old(t.nodes) && (p == null || p in old(t.nodes))
    requires old(t.Shape() && t.Graded() && !IsRed(t.root)) && Grafted(t, n, y, up, p, at) && Recast(t, n, y)
    ensures t.Counted(x) && t.Level(x)
    ensures t.Calm(x, null)
  {
    assert old(t.Linked(n)); assert old(t.Linked(y)); assert old(t.Linked(x)); assert old(t.Placed(x));
    assert old(t.Counted(n)); assert old(t.Counted(x)); assert old(t.Level(x)); assert old(t.Calm(x, null));
  }

  twostate lemma GraftedGap(t: RbTree, new n: RbNode, new y: RbNode, new up: RbNode, new p: RbNode?, new at: int)
    requires {n, y, up} <= old(t.nodes) && (p == null || p in old(t.nodes))
    requires old(t.Shape() && t.Graded() && !IsRed(t.root)) && Grafted(t, n, y, up, p, at) && Recast(t, n, y)
    ensures old(y.right) == null || old(y.right) in t.nodes
    ensures old(y.color.Black?) ==> Gap(t, old(y.right), up)
    ensures old(y.color.Red?) ==> t.Graded() && !IsRed(t.root)
  {
    GraftedAtY(t, n, y, up, p, at);
    if up != y {
      GraftedAtUp(t, n, y, up, p, at);
    }
    forall x | x in t.nodes && x != y && x != up
      ensures t.Counted(x) && t.Level(x) && t.Calm(x, null)
    {
      GraftedAt(t, n, y, up, p, at, x);
    }
    assert old(t.Linked(n));
  }

  /** The node in the place of `x` once `y` has moved into the place of `n`. */
  ghost function Stand(x: RbNode?, n: RbNode, y: RbNode): RbNode?
  {
    if x == n then y else x
  }

  twostate lemma GraftedSibling(t: RbTree, new n: RbNode, new y: RbNode, new up: RbNode, new p: RbNode?, new at: int, new q: RbNode, new left: bool, new s: RbNode?)
    requires {n, y, up, q} <= old(t.nodes) && (p == null || p in old(t.nodes)) && q != y
    requires old(t.Shape()) && Grafted(t, n, y, up, p, at) && Recast(t, n, y)
    requires old(Under(y, q)) && (if left then at + 1 < old(q.pos) else at + 1 > old(q.pos))
    requires s == old(if left then q.right else q.left)
    ensures Stand(q, n, y) in t.nodes && s == (if left then Stand(q, n, y).right else Stand(q, n, y).left)
    ensures Stand(q, n, y).color == old(q.color)
    ensures s == null || (s in old(t.nodes) && s in t.nodes)
  {
    assert old(t.Linked(n)); assert old(t.Placed(n)); assert old(t.Linked(y)); assert old(t.Placed(y));
    assert old(t.Linked(q)); assert old(t.Placed(q)); assert old(t.Placed(up)); assert old(t.Linked(up));
    if p != null {
      var p': RbNode := p;
      assert old(t.Placed(p')); assert old(t.Linked(p'));
    }
    if s != null {
      var s': RbNode := s;
      assert old(t.Placed(s'));
    }
  }

  twostate lemma GraftedNephews(t: RbTree, new n: RbNode, new y: RbNode, new up: RbNode, new p: RbNode?, new at: int, new q: RbNode, new left: bool, new s: RbNode)
    requires {n, y, up, q} <= old(t.nodes) && (p == null || p in old(t.nodes)) && q != y
    requires old(t.Shape()) && Grafted(t, n, y, up, p, at) && Recast(t, n, y)
    requires old(Under(y, q)) && (if left then at + 1 < old(q.pos) else at + 1 > old(q.pos))
    requires s == old(if left then q.right else q.left) && s in old(t.nodes) && s in t.nodes
    ensures s.color == old(s.color) && s.left == old(s.left) && s.right == old(s.right)
    ensures IsRed(s.left) == old(IsRed(s.left)) && IsRed(s.right) == old(IsRed(s.right))
  {
    assert old(t.Placed(n)); assert old(t.Placed(y)); assert old(t.Placed(q)); assert old(t.Placed(up)); assert old(t.Linked(y));
    assert old(t.Placed(s)); assert old(t.Linked(s)); assert old(t.Linked(n));
    if p != null {
      var p': RbNode := p;
      assert old(t.Placed(p'));
    }
    if old(s.left) != null { var l: RbNode := old(s.left); assert old(t.Placed(l)); }
    if old(s.right) != null { var r: RbNode := old(s.right); assert old(t.Placed(r)); }
  }

  twostate lemma GraftedParent(t: RbTree, new n: RbNode, new y: RbNode, new up: RbNode, new p: RbNode?, new at: int, new q: RbNode)
    requires {n, y, up, q} <= old(t.nodes) && (p == null || p in old(t.nodes)) && q != y
    requires old(t.Shape()) && Grafted(t, n, y, up, p, at)
    requires old(Under(y, q))
    ensures Stand(q, n, y) in t.nodes && Stand(q, n, y).parent == Stand(old(q.parent), n, y) && IsLeft(Stand(q, n, y)) == old(IsLeft(q))
    ensures old(q.parent) == null || (old(q.parent) in old(t.nodes) && old(q.parent) != y && old(Under(y, q.parent)) && Stand(old(q.parent), n, y) in t.nodes)
    ensures old(q.parent) == null || (if old(IsLeft(q)) then at + 1 < old(q.parent.pos) else at + 1 > old(q.parent.pos))
    ensures old(q.parent) == null || old(q.parent.hi - q.parent.lo) > old(q.hi - q.lo)
  {
    assert old(t.Linked(n)); assert old(t.Placed(n)); assert old(t.Linked(y)); assert old(t.Placed(y));
    assert old(t.Linked(q)); assert old(t.Placed(q)); assert old(t.Placed(up)); assert old(t.Linked(up));
    if p != null {
      var p': RbNode := p;
      assert old(t.Placed(p')); assert old(t.Linked(p'));
    }
    if old(q.parent) != null {
      var g: RbNode := old(q.parent);
      assert old(t.Placed(g)); assert old(t.Linked(g));
    }
  }

  /** Moving `y` into the place of `n` does not touch what decides about the loop above the place `y` left. */
  twostate lemma GraftedStuck(t: RbTree, new n: RbNode, new y: RbNode, new up: RbNode, new p: RbNode?, new at: int, new q: RbNode, new left: bool)
    requires {n, y, up, q} <= old(t.nodes) && (p == null || p in old(t.nodes)) && q != y
    requires old(t.Shape()) && t.Shape() && Grafted(t, n, y, up, p, at) && Recast(t, n, y)
    requires old(Under(y, q)) && (if left then at + 1 < old(q.pos) else at + 1 > old(q.pos))
    ensures Stand(q, n, y) in t.nodes && Stuck(t, Stand(q, n, y), left) == old(Stuck(t, q, left))
    decreases |old(t.order)| - old(q.hi - q.lo)
  {
    assert old(t.Linked(q)); assert old(t.Placed(q));
    var s := old(if left then q.right else q.left);
    GraftedSibling(t, n, y, up, p, at, q, left, s);
    if s != null {
      GraftedNephews(t, n, y, up, p, at, q, left, s);
    }
    GraftedParent(t, n, y, up, p, at, q);
    if old(q.parent) != null {
      var g: RbNode := old(q.parent);
      assert old(t.Placed(g));
      GraftedStuck(t, n, y, up, p, at, g, old(IsLeft(q)));
    }
  }

  twostate lemma GraftedStrands(t: RbTree, new n: RbNode, new y: RbNode, new up: RbNode, new p: RbNode?, new at: int)
    requires {n, y, up} <= old(t.nodes) && (p == null || p in old(t.nodes))
    requires old(t.Shape()) && t.Shape() && Grafted(t, n, y, up, p, at) && Recast(t, n, y)
    ensures old(y.right) == null || old(y.right) in t.nodes
    ensures old(y.parent) in old(t.nodes) && Strands(t, old(y.right), up) == old(!IsRed(y.right) && Stuck(t, y.parent, IsLeft(y)))
  {
    assert old(t.Linked(y)); assert old(t.Placed(y)); assert old(t.Placed(n)); assert old(t.Linked(n));
    var q: RbNode := old(y.parent);
    assert old(t.Placed(q)); assert old(t.Linked(q));
    GraftedStuck(t, n, y, up, p, at, q, old(IsLeft(y)));
    assert t.Linked(up); assert t.Placed(up);
    if old(y.right) != null {
      var e: RbNode := old(y.right);
      assert old(t.Placed(e)); assert t.Placed(e);
    }
  }

  // ----- rbt_remove -----

  /** The node that leaves its place: `n`, or its successor when `n` has two children. */
  ghost function Leaving(t: RbTree, n: RbNode): (x: RbNode)
    requires t.Shape() && n in t.nodes
    reads t`root, t`nodes, t`order, t.nodes`left, t.nodes`right, t.nodes`parent, t.nodes`lo, t.nodes`pos, t.nodes`hi
    ensures x in t.nodes
  {
    assert t.Placed(n);
    if n.left != null && n.right != null then assert t.Placed(n.right); t.order[n.pos + 1] else n
  }

  /** Whether removing `n` makes the fixup dereference a missing sibling: decided by the colours on the way up from the
      node that leaves its place. */
  ghost predicate Crashes(t: RbTree, n: RbNode)
    requires t.Shape() && n in t.nodes
    reads t`root, t`nodes, t`order, t.nodes`left, t.nodes`right, t.nodes`parent, t.nodes`lo, t.nodes`pos, t.nodes`hi, t.nodes`color
  {
    var x := Leaving(t, n);
    assert t.Linked(x); assert t.Placed(x);
    x.color.Black? && x.parent != null && !IsRed(if x.left != null then x.left else x.right) && Stuck(t, x.parent, IsLeft(x))
  }

  /** No removal from a red-black tree does. */
  lemma GradedNeverCrashes(t: RbTree, n: RbNode)
    requires t.Shape() && t.Graded() && n in t.nodes
    ensures !Crashes(t, n)
  {
    var x := Leaving(t, n);
    assert t.Linked(x); assert t.Placed(x); assert t.Counted(x);
    if x.parent != null && x.color.Black? {
      assert t.Placed(x.parent);
      BlackCounts(t, x);
      GradedNeverStuck(t, x.parent, IsLeft(x));
    }
  }

  lemma {:induction false} BlackCounts(t: RbTree, x: RbNode)
    requires t.Shape() && t.Graded() && x in t.nodes
    ensures Count(x) >= if x.color.Black? then 1 else 0
    decreases Size(x)
  {
    KidsSmaller(t, x);
    assert t.Counted(x);
    if x.left != null {
      BlackCounts(t, x.left);
    }
  }

  /** What either branch leaves: `parent` is short of a black node below `node` when a black one was taken out. */
  ghost predicate Detached(t: RbTree, rmColor: Color, node: RbNode?, parent: RbNode?, crashes: bool, graded: bool)
    requires t.Shape() && (node == null || node in t.nodes) && (parent == null || parent in t.nodes)
    reads t, t.nodes
  {
    && (rmColor.Red? ==> !crashes && !IsRed(t.root) && (graded ==> t.Graded()))
    && (rmColor.Black? ==> crashes == Strands(t, node, parent) && (graded ==> Gap(t, node, parent)))
    && (rmColor.Black? ==> if parent == null then t.root == node else t.root in t.nodes && !IsRed(t.root) && (parent.left == node || parent.right == node))
  }

  /** The branch for two children. */
  method DetachInner(t: RbTree, n: RbNode, ghost graded: bool) returns (rmColor: Color, node: RbNode?, parent: RbNode?)
    requires t.Shape() && !IsRed(t.root) && n in t.nodes && n.left != null && n.right != null
    requires graded ==> t.Graded()
    modifies t`root, t`nodes, t`order, t.nodes`left, t.nodes`right, t.nodes`parent, t.nodes`lo, t.nodes`pos, t.nodes`hi, t.nodes`color, t.nodes`bh
    ensures t.Shape() && Dropped(t, n, old(n.pos))
    ensures (node == null || node in t.nodes) && (parent == null || parent in t.nodes)
    ensures Detached(t, rmColor, node, parent, old(Crashes(t, n)), graded)
  {
    hide Grafted, Recast, Detached, Crashes;
    ghost var y;
    rmColor, node, parent, y := PutSuccessor(t, n);
    GraftedShape(t, n, y, parent, old(n.parent), old(n.pos));
    GraftedDetached(t, n, y, parent, old(n.parent), old(n.pos), graded);
  }

  /** The successor takes the place and the colour of `n`. */
  method PutSuccessor(t: RbTree, n: RbNode) returns (rmColor: Color, node: RbNode?, parent: RbNode, ghost y: RbNode)
    requires t.Shape() && n in t.nodes && n.left != null && n.right != null
    modifies t`root, t`nodes, t`order, t.nodes`left, t.nodes`right, t.nodes`parent, t.nodes`lo, t.nodes`pos, t.nodes`hi, t.nodes`color, t.nodes`bh
    ensures {y, parent} <= old(t.nodes) && (old(n.parent) == null || old(n.parent) in old(t.nodes))
    ensures rmColor == old(y.color) && node == old(y.right) && Grafted(t, n, y, parent, old(n.parent), old(n.pos)) && Recast(t, n, y)
  {
    assert t.Linked(n); assert t.Placed(n);
    var next := Successor(t, n);
    y := next;
    assert t.Linked(next); assert t.Placed(next);
    rmColor := next.color;
    next.color := n.color;
    next.bh := n.bh;
    node := next.right;
    if next == n.right {
      parent := next;
      GraftNear(t, n, next);
    } else {
      parent := next.parent;
      GraftFar(t, n, next);
    }
  }

  twostate lemma GraftedDetached(t: RbTree, new n: RbNode, new y: RbNode, new up: RbNode, new p: RbNode?, new at: int, new graded: bool)
    requires {n, y, up} <= old(t.nodes) && (p == null || p in old(t.nodes)) && old(n.left) != null && old(n.right) != null
    requires old(t.Shape() && !IsRed(t.root) && (graded ==> t.Graded())) && t.Shape() && Grafted(t, n, y, up, p, at) && Recast(t, n, y)
    ensures old(y.right) == null || old(y.right) in t.nodes
    ensures Detached(t, old(y.color), old(y.right), up, old(Crashes(t, n)), graded)
  {
    assert old(t.Placed(y)); assert old(t.Linked(y)); assert old(t.Placed(n));
    assert y == old(Leaving(t, n));
    GraftedStrands(t, n, y, up, p, at);
    GraftedBlackRoot(t, n, y, up, p, at);
    if graded {
      GraftedGap(t, n, y, up, p, at);
    }
  }

  twostate lemma GraftedBlackRoot(t: RbTree, new n: RbNode, new y: RbNode, new up: RbNode, new p: RbNode?, new at: int)
    requires {n, y, up} <= old(t.nodes) && (p == null || p in old(t.nodes))
    requires old(t.Shape() && !IsRed(t.root)) && Grafted(t, n, y, up, p, at) && Recast(t, n, y)
    ensures t.root in t.nodes && !IsRed(t.root) && (up.left == old(y.right) || up.right == old(y.right))
  {
    assert old(t.Linked(n)); assert old(t.Linked(y));
  }

  /** The branch for at most one child. */
  method DetachOuter(t: RbTree, n: RbNode, ghost graded: bool) returns (rmColor: Color, node: RbNode?, parent: RbNode?)
    requires t.Shape() && !IsRed(t.root) && n in t.nodes && (n.left == null || n.right == null)
    requires graded ==> t.Graded()
    modifies t`root, t`nodes, t`order, t.nodes`left, t.nodes`right, t.nodes`parent, t.nodes`lo, t.nodes`pos, t.nodes`hi, t.nodes`color, t.nodes`bh
    ensures t.Shape() && Dropped(t, n, old(n.pos))
    ensures (node == null || node in t.nodes) && (parent == null || parent in t.nodes)
    ensures Detached(t, rmColor, node, parent, old(Crashes(t, n)), graded)
  {
    assert t.Linked(n); assert t.Placed(n);
    rmColor := n.color;
    parent := n.parent;
    node := Bypass(t, n);
    BypassedShape(t, n, node, parent, old(n.pos));
    BypassedRoot(t, n, node, parent, old(n.pos));
    if parent != null {
      BypassedStrands(t, n, node, parent, old(n.pos));
    }
    if graded {
      BypassedGap(t, n, node, parent, old(n.pos));
    }
  }

  /** rbt_remove, on any ordered tree with consistent links and a black root: `ok` is false when it dereferences a missing
      sibling, and that happens exactly when `Crashes` says so beforehand. Otherwise the tree loses exactly `n`; a
      red-black tree stays one. */
  method Remove(t: RbTree, n: RbNode) returns (ok: bool)
    requires t.Valid() && n in t.nodes
    modifies t`root, t`cachedMin, t`nodes, t`order, t.nodes
    ensures ok <==> !old(Crashes(t, n))
    ensures ok ==> t.Valid() && t.nodes == old(t.nodes) - {n}
    ensures ok ==> 0 <= old(n.pos) < |old(t.order)| && old(t.order)[old(n.pos)] == n && t.order == old(t.order)[..old(n.pos)] + old(t.order)[old(n.pos) + 1..]
    ensures old(t.Graded()) ==> ok && t.Graded() && Passes(t)
  {
    ghost var graded := t.Graded();
    assert t.Placed(n);
    if t.cachedMin == n {
      t.cachedMin := Next(t, n);
    }
    assert t.cachedMin == (if |t.order| == 1 then null else if n.pos == 0 then t.order[1] else t.order[0]);
    var rmColor, node, parent;
    if n.left != null && n.right != null {
      rmColor, node, parent := DetachInner(t, n, graded);
    } else {
      rmColor, node, parent := DetachOuter(t, n, graded);
    }
    DroppedSorted(t, n, old(n.pos));
    ok := true;
    if rmColor.Black? {
      ok := RemoveFixup(t, node, parent, graded);
    }
    if graded {
      GradedPasses(t);
    }
  }
}
