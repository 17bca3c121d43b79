/** rbt_insert of src/rbtree.c. */
module RbInsert {
  import opened RbModel
  import opened RbSnapshot
  import opened RbInsertFixup
  import opened RbCheck

  /** The pointer that `y` addresses during the descent. */
  datatype Slot = RootSlot | LeftOf(p: RbNode) | RightOf(p: RbNode)

  ghost predicate AllBelow(t: RbTree, n: RbNode, k: int)
    reads t`order
  {
    forall i {:trigger t.order[i]} :: 0 <= i < |t.order| && i < k ==> t.Less(t.order[i], n)
  }

  ghost predicate AllAbove(t: RbTree, n: RbNode, k: int)
    reads t`order
  {
    forall i {:trigger t.order[i]} :: 0 <= i < |t.order| && k <= i ==> t.Less(n, t.order[i])
  }

  /** In-order position `at` is where `n` belongs. */
  ghost predicate Between(t: RbTree, n: RbNode, at: int)
    reads t`order
  {
    0 <= at <= |t.order| && AllBelow(t, n, at) && AllAbove(t, n, at)
  }

  lemma BelowUpTo(t: RbTree, n: RbNode, k: int)
    requires t.Sorted() && TotalOrder(t.compare) && 0 <= k < |t.order|
    requires t.Less(t.order[k], n)
    ensures AllBelow(t, n, k + 1)
  {
    forall i {:trigger t.order[i]} | 0 <= i < |t.order| && i < k + 1 ensures t.Less(t.order[i], n) {
      if i < k {
        assert t.Less(t.order[i], t.order[k]);
      }
    }
  }

  lemma AboveFrom(t: RbTree, n: RbNode, k: int)
    requires t.Sorted() && TotalOrder(t.compare) && 0 <= k < |t.order|
    requires t.Less(n, t.order[k])
    ensures AllAbove(t, n, k)
  {
    forall i {:trigger t.order[i]} | 0 <= i < |t.order| && k <= i ensures t.Less(n, t.order[i]) {
      if k < i {
        assert t.Less(t.order[k], t.order[i]);
      }
    }
  }

  /** The empty child pointer where the member for in-order position `at` belongs. */
  ghost predicate Vacant(t: RbTree, p: RbNode, left: bool, at: int)
    reads p`left, p`right, p`pos
  {
    if left then p.left == null && at == p.pos else p.right == null && at == p.pos + 1
  }

  /** The place a descent for `key` reaches from `x`. */
  ghost function Descent(t: RbTree, x: RbNode, key: int): (RbNode, bool)
    requires t.Shape() && x in t.nodes
    reads t`root, t`nodes, t`order, t.nodes`left, t.nodes`right, t.nodes`parent, t.nodes`lo, t.nodes`pos, t.nodes`hi
    decreases x.hi - x.lo
  {
    assert t.Linked(x); assert t.Placed(x);
    if t.compare(key, x.key) < 0 then
      if x.left == null then (x, true) else assert t.Placed(x.left); Descent(t, x.left, key)
    else
      if x.right == null then (x, false) else assert t.Placed(x.right); Descent(t, x.right, key)
  }

  method Descend(t: RbTree, n: RbNode) returns (found: bool, y: Slot, ghost at: int)
    requires t.Valid() && n !in t.nodes && t.root != null && TotalOrder(t.compare)
    modifies n`parent
    ensures !found ==> Between(t, n, at) && !y.RootSlot? && y.p in t.nodes && n.parent == y.p
    ensures !found ==> Vacant(t, y.p, y.LeftOf?, at) && Descent(t, t.root, n.key) == (y.p, y.LeftOf?)
    ensures found ==> exists x :: x in t.nodes && t.compare(n.key, x.key) == 0
  {
    var cur := t.root;
    y, at := RootSlot, 0;
    assert t.Placed(cur);
    while cur != null
      invariant cur != null ==> cur in t.nodes && Descent(t, t.root, n.key) == Descent(t, cur, n.key)
      invariant cur != null ==> AllBelow(t, n, cur.lo) && AllAbove(t, n, cur.hi)
      invariant cur == null ==> Between(t, n, at) && !y.RootSlot? && y.p in t.nodes && n.parent == y.p
      invariant cur == null ==> Vacant(t, y.p, y.LeftOf?, at) && Descent(t, t.root, n.key) == (y.p, y.LeftOf?)
      decreases if cur == null then 0 else cur.hi - cur.lo
    {
      n.parent := cur;
      assert t.Linked(cur); assert t.Placed(cur);
      var cmp := t.compare(n.key, cur.key);
      if cmp == 0 {
        found := true;
        return;
      } else if cmp < 0 {
        AboveFrom(t, n, cur.pos);
        y, at := LeftOf(cur), cur.pos;
        cur := cur.left;
      } else {
        BelowUpTo(t, n, cur.pos);
        y, at := RightOf(cur), cur.pos + 1;
        cur := cur.right;
      }
      if cur != null {
        assert t.Placed(cur);
      }
    }
    found := false;
  }

  ghost function Up(v: int, k: int): int
  {
    if v >= k then v + 1 else v
  }

  /** Renumbers the members for a new leaf at in-order position `at`. */
  ghost method MakeRoom(t: RbTree, at: int, left: bool)
    modifies t.nodes`lo, t.nodes`pos, t.nodes`hi
    ensures forall x {:trigger x.pos} :: x in t.nodes ==> x.pos == Up(old(x.pos), at)
    ensures forall x {:trigger x.lo} :: x in t.nodes ==> x.lo == Up(old(x.lo), if left then at + 1 else at)
    ensures forall x {:trigger x.hi} :: x in t.nodes ==> x.hi == Up(old(x.hi), if left then at + 1 else at)
  {
    var k := if left then at + 1 else at;
    forall x | x in t.nodes {
      x.pos := Up(x.pos, at);
    }
    forall x | x in t.nodes {
      x.lo := Up(x.lo, k);
    }
    forall x | x in t.nodes {
      x.hi := Up(x.hi, k);
    }
  }

  /** `n` has become the `left` (or right) child of `p`, at in-order position `at`. */
  twostate predicate Attached(t: RbTree, new n: RbNode, p: RbNode, left: bool, at: int)
    requires p in old(t.nodes)
    reads t`root, t`order, t`nodes, t.nodes`left, t.nodes`right, t.nodes`parent, t.nodes`lo, t.nodes`pos, t.nodes`hi
  {
    && t.nodes == old(t.nodes) + {n} && n !in old(t.nodes)
    && 0 <= at <= |old(t.order)| && t.order == old(t.order)[..at] + [n] + old(t.order)[at..]
    && t.root == old(t.root)
    && n.left == null && n.right == null && n.parent == p && n.lo == n.pos == at && n.hi == at + 1
    && (if left then p.left == n && p.right == old(p.right) else p.right == n && p.left == old(p.left))
    && (forall x {:trigger x.left} :: x in old(t.nodes) && x != p ==> x.left == old(x.left))
    && (forall x {:trigger x.right} :: x in old(t.nodes) && x != p ==> x.right == old(x.right))
    && (forall x {:trigger x.parent} :: x in old(t.nodes) ==> x.parent == old(x.parent))
    && (forall x {:trigger x.pos} :: x in old(t.nodes) ==> x.pos == Up(old(x.pos), at))
    && (forall x {:trigger x.lo} :: x in old(t.nodes) ==> x.lo == Up(old(x.lo), if left then at + 1 else at))
    && (forall x {:trigger x.hi} :: x in old(t.nodes) ==> x.hi == Up(old(x.hi), if left then at + 1 else at))
  }

  method Attach(t: RbTree, n: RbNode, p: RbNode, left: bool, ghost at: int)
    requires t.Shape() && n !in t.nodes && p in t.nodes && Vacant(t, p, left, at)
    requires n.left == null && n.right == null && n.parent == p
    modifies t`nodes, t`order, t.nodes`left, t.nodes`right, t.nodes`lo, t.nodes`pos, t.nodes`hi, n`lo, n`pos, n`hi, n`bh
    ensures Attached(t, n, p, left, at) && n.bh == 0
  {
    assert t.Placed(p);
    if left {
      p.left := n;
    } else {
      p.right := n;
    }
    MakeRoom(t, at, left);
    n.lo, n.pos, n.hi, n.bh := at, at, at + 1, 0;
    t.order := t.order[..at] + [n] + t.order[at..];
    t.nodes := t.nodes + {n};
  }

  twostate lemma AttachedLinked(t: RbTree, new n: RbNode, new p: RbNode, new left: bool, new at: int, new x: RbNode)
    requires p in old(t.nodes) && old(t.Shape() && Vacant(t, p, left, at))
    requires Attached(t, n, p, left, at) && x in t.nodes
    ensures t.Linked(x)
  {
    assert old(t.Linked(p)); 
    if x != n {
      assert old(t.Linked(x));
    }
  }

  twostate lemma AttachedPlaced(t: RbTree, new n: RbNode, new p: RbNode, new left: bool, new at: int, new x: RbNode)
    requires p in old(t.nodes) && old(t.Shape() && Vacant(t, p, left, at))
    requires Attached(t, n, p, left, at) && x in t.nodes
    ensures t.Placed(x)
  {
    assert old(t.Placed(p)); 
    if x != n {
      assert old(t.Placed(x)); assert old(t.Linked(x));
    }
  }

  twostate lemma AttachedIndexed(t: RbTree, new n: RbNode, new p: RbNode, new left: bool, new at: int)
    requires p in old(t.nodes) && old(t.Shape() && Vacant(t, p, left, at))
    requires Attached(t, n, p, left, at)
    ensures forall i {:trigger t.order[i]} :: 0 <= i < |t.order| ==> t.order[i] in t.nodes && t.order[i].pos == i
  {
    forall i {:trigger t.order[i]} | 0 <= i < |t.order|
      ensures t.order[i] in t.nodes && t.order[i].pos == i
    {
      if i != at {
        var j := if i < at then i else i - 1;
        assert t.order[i] == old(t.order)[j];
        assert old(t.order[j].pos) == j;
      }
    }
  }

  twostate lemma AttachedShape(t: RbTree, new n: RbNode, new p: RbNode, new left: bool, new at: int)
    requires p in old(t.nodes) && old(t.Shape() && Vacant(t, p, left, at))
    requires Attached(t, n, p, left, at)
    ensures t.Shape()
  {
    forall x | x in t.nodes
      ensures t.Linked(x)
    {
      AttachedLinked(t, n, p, left, at, x);
    }
    forall x | x in t.nodes
      ensures t.Placed(x)
    {
      AttachedPlaced(t, n, p, left, at, x);
    }
    AttachedIndexed(t, n, p, left, at);
    assert old(t.Linked(p)) && old(t.Placed(p));
  }

  /** The new leaf is red: nothing else about the colouring changes. */
  twostate lemma AttachedClimb(t: RbTree, new n: RbNode, new p: RbNode, new left: bool, new at: int)
    requires p in old(t.nodes) && old(t.Shape() && Vacant(t, p, left, at) && t.Graded())
    requires Attached(t, n, p, left, at) && n.color.Red? && n.bh == 0
    requires forall x {:trigger x.color} :: x in old(t.nodes) ==> x.color == old(x.color)
    requires forall x {:trigger x.bh} :: x in old(t.nodes) ==> x.bh == old(x.bh)
    ensures Climb(t, n, true)
  {
    forall x | x in t.nodes
      ensures t.Counted(x) && t.Level(x) && t.Calm(x, n)
    {
      if x != n {
        assert old(t.Counted(x)); assert old(t.Level(x)); assert old(t.Calm(x, null)); assert old(t.Linked(x));
      }
    }
  }

  twostate lemma AttachedUncle(t: RbTree, new n: RbNode, new p: RbNode, new left: bool, new at: int, new q: RbNode, new g: RbNode, new uncle: RbNode?)
    requires p in old(t.nodes) && old(t.Shape() && Vacant(t, p, left, at))
    requires Attached(t, n, p, left, at)
    requires forall x {:trigger x.color} :: x in old(t.nodes) ==> x.color == old(x.color)
    requires q in old(t.nodes) && g in old(t.nodes) && old(Under(p, q))
    requires g == q.parent && uncle == (if g.left == q then g.right else g.left)
    ensures q.color == old(q.color) && g == old(q.parent) && g.left == old(g.left) && g.right == old(g.right) && g.parent == old(g.parent)
    ensures (uncle == null || uncle in old(t.nodes)) && IsRed(uncle) == old(IsRed(uncle))
    ensures IsLeft(q) == old(IsLeft(q)) && IsLeft(g) == old(IsLeft(g))
    ensures g.parent == null || (g.parent in old(t.nodes) && old(Under(p, g.parent)))
  {
    assert old(t.Linked(q)); assert old(t.Placed(q)); assert old(t.Linked(g)); assert old(t.Placed(g));
    if g.parent != null {
      var o: RbNode := g.parent;
      assert old(t.Placed(o)); assert old(t.Linked(o));
    }
  }

  twostate lemma AttachedKeeps(t: RbTree, new n: RbNode, new p: RbNode, new left: bool, new at: int, new q: RbNode)
    requires p in old(t.nodes) && Attached(t, n, p, left, at) && q in old(t.nodes)
    ensures q in t.nodes && q.parent == old(q.parent)
  {
  }

  twostate lemma AttachedBreaks(t: RbTree, new n: RbNode, new p: RbNode, new left: bool, new at: int, new q: RbNode?, new ql: bool, new red: bool)
    requires p in old(t.nodes) && old(t.Shape() && Vacant(t, p, left, at))
    requires Attached(t, n, p, left, at) && t.Shape()
    requires forall x {:trigger x.color} :: x in old(t.nodes) ==> x.color == old(x.color)
    requires q != null ==> q in old(t.nodes) && old(Under(p, q))
    ensures Breaks(t, q, ql, red) == old(Breaks(t, q, ql, red))
    decreases if q == null then 0 else 1 + |t.order| - (q.hi - q.lo)
  {
    if q != null {
      AttachedKeeps(t, n, p, left, at, q);
    }
    hide Attached, Vacant;
    if q != null && q.color.Red? && q.parent != null {
      assert t.Linked(q); assert t.Placed(q); assert old(t.Linked(q));
      var g: RbNode := q.parent;
      assert t.Linked(g); assert t.Placed(g);
      var uncle := if g.left == q then g.right else g.left;
      AttachedUncle(t, n, p, left, at, q, g, uncle);
      assert g.parent != null ==> t.Placed(g.parent);
      AttachedBreaks(t, n, p, left, at, g.parent, IsLeft(g), IsRed(uncle));
    }
  }

  /** When a subtree ends just before a node, that node has a left subtree. */
  lemma {:induction false} LeftTaken(t: RbTree, x: RbNode, y: RbNode)
    requires t.Shape() && x in t.nodes && y in t.nodes && x.hi == y.pos
    ensures y.left != null
    decreases |t.order| - (x.hi - x.lo)
  {
    assert t.Linked(x); assert t.Placed(x); assert t.Placed(y);
    var q: RbNode := x.parent;
    assert t.Placed(q); assert t.Linked(q);
    if q.left != x {
      LeftTaken(t, q, y);
    }
  }

  /** The entries of the tree with the new leaf. */
  lemma HungAt(s: Snapshot, at: int, left: bool, i: int)
    requires s.cells != [] && 0 <= at <= |s.cells| && 0 <= i <= |s.cells|
    requires left <==> at < |s.cells| && s.cells[at].left == -1
    ensures Hung(s, at).root == Shift(s.root, at)
    ensures Get(Hung(s, at), i) == if i == at then Entry(if left then at + 1 else at - 1, -1, -1, Red)
      else
        var c := Shifted(Get(s, if i < at then i else i - 1), at);
        if i != (if left then at + 1 else at - 1) then c else if left then c.(left := at) else c.(right := at)
  {
  }

  twostate lemma AttachedEntry(t: RbTree, new n: RbNode, new p: RbNode, new left: bool, new at: int, new x: RbNode)
    requires p in old(t.nodes) && old(t.Shape() && Vacant(t, p, left, at)) && t.Shape()
    requires old(!left && 0 <= at < |t.order| ==> t.order[at].left != null)
    requires Attached(t, n, p, left, at) && n.color.Red? && x in t.nodes
    requires forall y {:trigger y.color} :: y in old(t.nodes) ==> y.color == old(y.color)
    ensures EntryOf(t, x) == Get(Hung(old(SnapshotOf(t)), at), x.pos)
    ensures Hung(old(SnapshotOf(t)), at).root == At(t.root)
  {
    hide SnapshotOf, Hung;
    assert old(t.Placed(p)); assert old(t.Linked(p));
    EntryBefore(t, p);
    if !left && at < |old(t.order)| {
      var y := old(t.order)[at];
      EntryBefore(t, y);
      assert old(t.Linked(y)); assert old(t.Placed(y.left));
    }
    assert t.Placed(x); assert t.Linked(x);
    HungAt(old(SnapshotOf(t)), at, left, x.pos);
    if x != n {
      EntryBefore(t, x);
      assert old(t.Linked(x)); assert old(t.Placed(x));
    }
  }

  twostate lemma AttachedShown(t: RbTree, new n: RbNode, new p: RbNode, new left: bool, new at: int)
    requires p in old(t.nodes) && old(t.Shape() && Vacant(t, p, left, at)) && t.Shape()
    requires old(!left && 0 <= at < |t.order| ==> t.order[at].left != null)
    requires Attached(t, n, p, left, at) && n.color.Red?
    requires forall y {:trigger y.color} :: y in old(t.nodes) ==> y.color == old(y.color)
    ensures SnapshotOf(t) == Hung(old(SnapshotOf(t)), at)
  {
    hide SnapshotOf, Hung;
    EntryBefore(t, p);
    forall x | x in t.nodes ensures EntryOf(t, x) == Get(Hung(old(SnapshotOf(t)), at), x.pos) {
      AttachedEntry(t, n, p, left, at, x);
    }
    AttachedEntry(t, n, p, left, at, n);
    SnapshotIs(t, Hung(old(SnapshotOf(t)), at));
  }

  twostate lemma AttachedSorted(t: RbTree, new n: RbNode, new p: RbNode, new left: bool, new at: int)
    requires p in old(t.nodes) && old(allocated(n)) && old(t.Sorted() && Between(t, n, at))
    requires Attached(t, n, p, left, at)
    ensures t.Sorted()
  {
  }

  /** Whether inserting `key` makes the fixup loop rotate twice around a black node: decided by the
      colours on the way up from the place where the key belongs. */
  ghost predicate Dooms(t: RbTree, key: int)
    requires t.Shape()
    reads t`root, t`nodes, t`order, t.nodes`left, t.nodes`right, t.nodes`parent, t.nodes`lo, t.nodes`pos, t.nodes`hi, t.nodes`color
  {
    t.root != null && var (p, left) := Descent(t, t.root, key); p in t.nodes && Breaks(t, p, left, true)
  }

  /** Stores `n` through the pointer `y` found by the descent. */
  method Link(t: RbTree, n: RbNode, y: Slot, ghost at: int, ghost graded: bool)
    requires t.Valid() && n !in t.nodes && !y.RootSlot? && y.p in t.nodes
    requires Between(t, n, at) && Vacant(t, y.p, y.LeftOf?, at)
    requires n.color.Red? && n.left == null && n.right == null && n.parent == y.p
    requires graded ==> t.Graded()
    modifies t`nodes, t`order, t.nodes`left, t.nodes`right, t.nodes`lo, t.nodes`pos, t.nodes`hi, n`lo, n`pos, n`hi, n`bh
    ensures t.Shape() && t.Sorted() && t.nodes == old(t.nodes) + {n}
    ensures t.order == old(t.order)[..at] + [n] + old(t.order)[at..]
    ensures RootCalm(t, n)
    ensures graded ==> Climb(t, n, true)
    ensures Doomed(t, n) == old(Breaks(t, y.p, y.LeftOf?, true))
    ensures SnapshotOf(t) == Hung(old(SnapshotOf(t)), at)
  {
    hide SnapshotOf, Hung;
    ghost var p, left := y.p, y.LeftOf?;
    assert t.Linked(p); assert t.Placed(p);
    if !left && at < |t.order| {
      LeftTaken(t, p, t.order[at]);
    }
    Attach(t, n, y.p, y.LeftOf?, at);
    AttachedShape(t, n, p, left, at);
    AttachedSorted(t, n, p, left, at);
    AttachedShown(t, n, p, left, at);
    AttachedBreaks(t, n, p, left, at, p, left, true);
    if graded {
      AttachedClimb(t, n, p, left, at);
    }
    assert t.Placed(p);
  }

  /** The first node of an empty tree. */
  method LinkRoot(t: RbTree, n: RbNode)
    requires t.Valid() && t.root == null && n.color.Red? && n.parent == null && n.left == null && n.right == null
    modifies t`root, t`nodes, t`order, n`lo, n`pos, n`hi, n`bh
    ensures t.Shape() && t.Sorted() && t.nodes == {n} && t.order == [n] && t.root == n
    ensures Climb(t, n, true)
    ensures !Doomed(t, n)
    ensures SnapshotOf(t) == Hung(old(SnapshotOf(t)), 0)
  {
    SnapshotSize(t);
    t.root := n;
    n.lo, n.pos, n.hi, n.bh := 0, 0, 1, 0;
    t.order := [n];
    t.nodes := {n};
    assert t.Linked(n) && t.Placed(n);
    assert EntryOf(t, n) == Entry(-1, -1, -1, Red);
    SnapshotIs(t, Snapshot(0, [Entry(-1, -1, -1, Red)]));
  }

  /** Every member is a position of `order`. */
  lemma MembersAreOrdered(t: RbTree, n: RbNode, at: int)
    requires t.Shape() && TotalOrder(t.compare) && Between(t, n, at)
    ensures forall x :: x in t.nodes ==> t.compare(n.key, x.key) != 0
  {
    forall x | x in t.nodes ensures t.compare(n.key, x.key) != 0 {
      assert t.Placed(x);
      assert t.order[x.pos] == x;
    }
  }

  lemma MemberHasPosition(t: RbTree, x: RbNode)
    requires t.Shape() && x in t.nodes
    ensures t.order != []
  {
    assert t.Placed(x);
  }

  lemma EmptyHasNoMembers(t: RbTree)
    requires t.Shape() && t.root == null
    ensures t.nodes == {}
  {
    forall x | x in t.nodes ensures false {
      MemberHasPosition(t, x);
    }
  }

  /** The descent and the store through the pointer it found, in a tree that is not empty. */
  method Hang(t: RbTree, n: RbNode, ghost graded: bool) returns (ok: bool, ghost at: int)
    requires t.Valid() && TotalOrder(t.compare) && n !in t.nodes && t.root != null
    requires n.color.Red? && n.left == null && n.right == null
    requires graded ==> t.Graded()
    modifies t`nodes, t`order, t.nodes`left, t.nodes`right, t.nodes`lo, t.nodes`pos, t.nodes`hi, n`parent, n`lo, n`pos, n`hi, n`bh
    ensures ok <==> forall x :: x in old(t.nodes) ==> t.compare(n.key, x.key) != 0
    ensures !ok ==> unchanged(t) && forall x :: x in t.nodes ==> unchanged(x)
    ensures ok ==> t.Shape() && t.Sorted() && t.nodes == old(t.nodes) + {n} && RootCalm(t, n)
    ensures ok ==> 0 <= at <= |old(t.order)| && t.order == old(t.order)[..at] + [n] + old(t.order)[at..]
    ensures ok && graded ==> Climb(t, n, true)
    ensures ok ==> Doomed(t, n) == old(Dooms(t, n.key))
    ensures ok ==> SnapshotOf(t) == Hung(old(SnapshotOf(t)), at)
  {
    hide SnapshotOf, Hung;
    ghost var dooms := Dooms(t, n.key);
    var found, y;
    found, y, at := Descend(t, n);
    if found {
      return false, at;
    }
    MembersAreOrdered(t, n, at);
    assert Breaks(t, y.p, y.LeftOf?, true) == dooms;
    Link(t, n, y, at, graded);
    return true, at;
  }

  /** The new node takes its place as a red leaf, unless an equal node is there. */
  method Place(t: RbTree, n: RbNode, ghost graded: bool, ghost dooms: bool) returns (ok: bool, ghost at: int)
    requires t.Valid() && TotalOrder(t.compare) && n !in t.nodes
    requires graded == t.Graded() && dooms == Dooms(t, n.key)
    modifies t`root, t`nodes, t`order, t.nodes`left, t.nodes`right, t.nodes`lo, t.nodes`pos, t.nodes`hi, n
    ensures ok <==> forall x :: x in old(t.nodes) ==> t.compare(n.key, x.key) != 0
    ensures !ok ==> unchanged(t) && forall x :: x in t.nodes ==> unchanged(x)
    ensures ok ==> t.Shape() && t.Sorted() && t.nodes == old(t.nodes) + {n} && RootCalm(t, n)
    ensures ok ==> 0 <= at <= |old(t.order)| && t.order == old(t.order)[..at] + [n] + old(t.order)[at..]
    ensures ok && graded ==> Climb(t, n, true)
    ensures ok ==> Doomed(t, n) == dooms
    ensures ok ==> SnapshotOf(t) == Hung(old(SnapshotOf(t)), at)
  {
    hide SnapshotOf, Hung;
    n.color, n.parent, n.left, n.right := Red, null, null, null;
    assert Dooms(t, n.key) == dooms;
    if t.root != null {
      ok, at := Hang(t, n, graded);
    } else {
      EmptyHasNoMembers(t);
      LinkRoot(t, n);
      ok, at := true, 0;
    }
  }

  /** The cached minimum follows the smaller of the new node and the old minimum. */
  method UpdateMin(t: RbTree, n: RbNode, ghost was: seq<RbNode>, ghost at: int)
    requires TotalOrder(t.compare) && t.Sorted() && 0 <= at <= |was| && t.order == was[..at] + [n] + was[at..]
    requires t.cachedMin == (if was == [] then null else was[0])
    modifies t`cachedMin
    ensures t.cachedMin == t.order[0]
  {
    assert at > 0 ==> t.Less(t.order[0], t.order[at]);
    assert at == 0 && was != [] ==> t.order[1] == was[0] && t.Less(t.order[0], t.order[1]);
    if t.cachedMin == null || t.compare(n.key, t.cachedMin.key) < 0 {
      t.cachedMin := n;
    }
  }

  /** rbt_insert. `graded` says that the tree is a red-black tree, `dooms` what `Dooms` says. */
  method Enter(t: RbTree, n: RbNode, ghost graded: bool, ghost dooms: bool) returns (ok: bool)
    requires t.Valid() && TotalOrder(t.compare) && n !in t.nodes
    requires graded == t.Graded() && dooms == Dooms(t, n.key)
    modifies t`root, t`cachedMin, t`nodes, t`order, t.nodes, n
    ensures t.Valid()
    ensures ok <==> forall x :: x in old(t.nodes) ==> t.compare(n.key, x.key) != 0
    ensures !ok ==> unchanged(t) && forall x :: x in t.nodes ==> unchanged(x)
    ensures ok ==> t.nodes == old(t.nodes) + {n} && 0 <= n.pos <= |old(t.order)| && t.order == old(t.order)[..n.pos] + [n] + old(t.order)[n.pos..]
    ensures ok ==> SnapshotOf(t) == Inserted(old(SnapshotOf(t)), n.pos)
    ensures ok && graded && !dooms ==> t.Graded()
    ensures ok && graded && dooms ==>
      (forall x {:trigger t.Counted(x)} :: x in t.nodes ==> t.Counted(x)) && (exists w :: w in t.nodes && !t.Level(w))
  {
    hide SnapshotOf, Hung, Fixed, Doomed, Climb;
    ghost var at;
    ok, at := Place(t, n, graded, dooms);
    if !ok {
      return false;
    }
    UpdateMin(t, n, old(t.order), at);
    assert t.order[at] == n;
    InsertFixup(t, n, graded);
    return true;
  }

  /** rbt_insert: the member takes its place in the sequence, the links and colours are those of `Inserted`, and the
      outcome is a red-black tree exactly when `Dooms` says no. */
  method Insert(t: RbTree, n: RbNode) returns (ok: bool)
    requires t.Valid() && TotalOrder(t.compare) && n !in t.nodes
    modifies t`root, t`cachedMin, t`nodes, t`order, t.nodes, n
    ensures t.Valid()
    ensures ok <==> forall x :: x in old(t.nodes) ==> t.compare(n.key, x.key) != 0
    ensures !ok ==> unchanged(t) && forall x :: x in t.nodes ==> unchanged(x)
    ensures ok ==> t.nodes == old(t.nodes) + {n} && 0 <= n.pos <= |old(t.order)| && t.order == old(t.order)[..n.pos] + [n] + old(t.order)[n.pos..]
    ensures ok ==> SnapshotOf(t) == Inserted(old(SnapshotOf(t)), n.pos)
    ensures ok && old(t.Graded()) && !old(Dooms(t, n.key)) ==> t.Graded() && Passes(t)
    ensures ok && old(t.Graded()) && old(Dooms(t, n.key)) ==> !Passes(t)
  {
    hide SnapshotOf, Inserted;
    ghost var graded, dooms := t.Graded(), Dooms(t, n.key);
    ok := Enter(t, n, graded, dooms);
    if ok && graded {
      if dooms {
        var w :| w in t.nodes && !t.Level(w);
        UnlevelNeverPasses(t, w);
      } else {
        GradedPasses(t);
      }
    }
  }
}
