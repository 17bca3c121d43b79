/** The links and colours of a tree as one value: every node by its in-order position, -1 for null. rbt_insert on such
    values, step by step as in src/rbtree.c. */
module RbSnapshot {
  import opened RbModel
  import opened RbRotate

  datatype Entry = Entry(parent: int, left: int, right: int, color: Color)
  datatype Snapshot = Snapshot(root: int, cells: seq<Entry>)

  // ----- reading and writing through positions -----

  function Get(s: Snapshot, i: int): Entry
  {
    if 0 <= i < |s.cells| then s.cells[i] else Entry(-1, -1, -1, Black)
  }

  function Put(s: Snapshot, i: int, c: Entry): (r: Snapshot)
    ensures |r.cells| == |s.cells|
  {
    if 0 <= i < |s.cells| then s.(cells := s.cells[i := c]) else s
  }

  function Paint(s: Snapshot, i: int, color: Color): (r: Snapshot)
    ensures |r.cells| == |s.cells|
  {
    Put(s, i, Get(s, i).(color := color))
  }

  predicate RedAt(s: Snapshot, i: int)
  {
    Get(s, i).color.Red?
  }

  /** The child pointer of `p`, or the root pointer, that held `a` gets `c`. */
  function Redirect(s: Snapshot, p: int, a: int, c: int): (r: Snapshot)
    ensures |r.cells| == |s.cells|
  {
    if p == -1 then s.(root := c)
    else if Get(s, p).left == a then Put(s, p, Get(s, p).(left := c))
    else Put(s, p, Get(s, p).(right := c))
  }

  /** rbt_rotate_left */
  function RotatedLeft(s: Snapshot, a: int): (r: Snapshot)
    ensures |r.cells| == |s.cells|
  {
    var c, p := Get(s, a).right, Get(s, a).parent;
    var e := Get(s, c).left;
    var s1 := Redirect(s, p, a, c);
    var s2 := Put(s1, c, Get(s1, c).(parent := p, left := a));
    var s3 := Put(s2, a, Get(s2, a).(parent := c, right := e));
    Put(s3, e, Get(s3, e).(parent := a))
  }

  /** rbt_rotate_right */
  function RotatedRight(s: Snapshot, a: int): (r: Snapshot)
    ensures |r.cells| == |s.cells|
  {
    var b, p := Get(s, a).left, Get(s, a).parent;
    var e := Get(s, b).right;
    var s1 := Redirect(s, p, a, b);
    var s2 := Put(s1, b, Get(s1, b).(parent := p, right := a));
    var s3 := Put(s2, a, Get(s2, a).(parent := b, left := e));
    Put(s3, e, Get(s3, e).(parent := a))
  }

  /** One pass of the insert loop at node `i`, and where it goes on. */
  function Pass(s: Snapshot, i: int): (r: (Snapshot, int))
    ensures |r.0.cells| == |s.cells|
  {
    var p := Get(s, i).parent;
    var g := Get(s, p).parent;
    if Get(s, g).left == p then
      var u := Get(s, g).right;
      if u != -1 && RedAt(s, u) then (Paint(Paint(Paint(s, p, Black), g, Red), u, Black), g)
      else if Get(s, p).right == i then (Paint(Paint(RotatedRight(RotatedLeft(s, p), g), i, Black), g, Red), i)
      else (Paint(Paint(RotatedRight(s, g), p, Black), g, Red), p)
    else
      var u := Get(s, g).left;
      if u != -1 && RedAt(s, u) then (Paint(Paint(Paint(s, p, Black), g, Red), u, Black), g)
      else if Get(s, p).left == i then (Paint(Paint(RotatedLeft(RotatedRight(s, p), g), i, Black), g, Red), i)
      else (Paint(Paint(RotatedLeft(s, g), p, Black), g, Red), p)
  }

  /** The insert loop from node `i`, for at most `fuel` passes. */
  function Loop(s: Snapshot, i: int, fuel: nat): (r: Snapshot)
    ensures |r.cells| == |s.cells|
    decreases fuel
  {
    if fuel == 0 || Get(s, i).parent == -1 || !RedAt(s, Get(s, i).parent) then s
    else Loop(Pass(s, i).0, Pass(s, i).1, fuel - 1)
  }

  /** rbt_insert_fixup */
  function Fixed(s: Snapshot, i: int): Snapshot
  {
    var s1 := Loop(s, i, |s.cells|);
    Paint(s1, s1.root, Black)
  }

  function Shift(v: int, at: int): int
  {
    if v >= at then v + 1 else v
  }

  function Shifted(c: Entry, at: int): Entry
  {
    Entry(Shift(c.parent, at), Shift(c.left, at), Shift(c.right, at), c.color)
  }

  /** A new red leaf at in-order position `at`: in the empty place left of the node there, or right of the one before. */
  function Hung(s: Snapshot, at: int): (r: Snapshot)
    requires 0 <= at <= |s.cells|
    ensures |r.cells| == |s.cells| + 1
  {
    if s.cells == [] then Snapshot(0, [Entry(-1, -1, -1, Red)])
    else
      var left := at < |s.cells| && s.cells[at].left == -1;
      var p := if left then at + 1 else at - 1;
      var cells := seq(|s.cells| + 1, i requires 0 <= i < |s.cells| + 1 =>
        if i < at then Shifted(s.cells[i], at) else if i > at then Shifted(s.cells[i - 1], at) else Entry(p, -1, -1, Red));
      var s1 := Snapshot(Shift(s.root, at), cells);
      Put(s1, p, if left then Get(s1, p).(left := at) else Get(s1, p).(right := at))
  }

  /** rbt_insert of a new key that belongs at in-order position `at`. */
  function Inserted(s: Snapshot, at: int): Snapshot
    requires 0 <= at <= |s.cells|
  {
    Fixed(Hung(s, at), at)
  }


  // ----- the tree as a snapshot -----

  ghost function At(x: RbNode?): int
    reads RbModel.Cell(x)`pos
  {
    if x == null then -1 else x.pos
  }

  ghost function EntryOf(t: RbTree, x: RbNode): Entry
    requires t.Shape() && x in t.nodes
    reads t`root, t`nodes, t`order, t.nodes`left, t.nodes`right, t.nodes`parent, t.nodes`lo, t.nodes`pos, t.nodes`hi, t.nodes`color
  {
    assert t.Linked(x);
    Entry(At(x.parent), At(x.left), At(x.right), x.color)
  }

  ghost function EntriesFrom(t: RbTree, i: nat): (r: seq<Entry>)
    requires t.Shape() && i <= |t.order|
    reads t`root, t`nodes, t`order, t.nodes`left, t.nodes`right, t.nodes`parent, t.nodes`lo, t.nodes`pos, t.nodes`hi, t.nodes`color
    ensures |r| == |t.order| - i && forall k :: 0 <= k < |r| ==> r[k] == EntryOf(t, t.order[i + k])
    decreases |t.order| - i
  {
    if i == |t.order| then [] else [EntryOf(t, t.order[i])] + EntriesFrom(t, i + 1)
  }

  ghost function SnapshotOf(t: RbTree): (s: Snapshot)
    requires t.Shape()
    reads t`root, t`nodes, t`order, t.nodes`left, t.nodes`right, t.nodes`parent, t.nodes`lo, t.nodes`pos, t.nodes`hi, t.nodes`color
  {
    Snapshot(At(t.root), EntriesFrom(t, 0))
  }

  lemma SnapshotSize(t: RbTree)
    requires t.Shape()
    ensures SnapshotOf(t).root == At(t.root) && |SnapshotOf(t).cells| == |t.order|
  {
  }

  lemma EntryAt(t: RbTree, x: RbNode)
    requires t.Shape() && x in t.nodes
    ensures 0 <= x.pos < |t.order| && t.order[x.pos] == x && SnapshotOf(t).cells[x.pos] == EntryOf(t, x) == Get(SnapshotOf(t), x.pos)
  {
    assert t.Placed(x);
  }

  lemma SnapshotIs(t: RbTree, s: Snapshot)
    requires t.Shape() && |s.cells| == |t.order| && s.root == At(t.root)
    requires forall x {:trigger EntryOf(t, x)} :: x in t.nodes ==> EntryOf(t, x) == Get(s, x.pos)
    ensures SnapshotOf(t) == s
  {
    forall k | 0 <= k < |t.order| ensures SnapshotOf(t).cells[k] == s.cells[k] {
      assert t.order[k] in t.nodes && t.order[k].pos == k;
      assert EntryOf(t, t.order[k]) == Get(s, k);
    }
    assert SnapshotOf(t).cells == s.cells;
  }

  /** What a rotation around `a`, which lifts `c` to the place below `p` and hands `a` the subtree `e`, does to entry `i`. */
  lemma RotatedLeftAt(s: Snapshot, a: int, c: int, e: int, p: int, i: int)
    requires 0 <= a < |s.cells| && 0 <= c < |s.cells| && -1 <= e < |s.cells| && -1 <= p < |s.cells| && 0 <= i < |s.cells|
    requires c == Get(s, a).right && e == Get(s, c).left && p == Get(s, a).parent
    requires a != c && e !in {a, c} && p !in {a, c} && (p == e ==> p == -1)
    ensures RotatedLeft(s, a).root == if p == -1 then c else s.root
    ensures Get(RotatedLeft(s, a), i) ==
      if i == a then Get(s, a).(parent := c, right := e)
      else if i == c then Get(s, c).(parent := p, left := a)
      else if i == e then Get(s, e).(parent := a)
      else if i == p then if Get(s, p).left == a then Get(s, p).(left := c) else Get(s, p).(right := c)
      else Get(s, i)
  {
  }

  lemma RotatedRightAt(s: Snapshot, a: int, b: int, e: int, p: int, i: int)
    requires 0 <= a < |s.cells| && 0 <= b < |s.cells| && -1 <= e < |s.cells| && -1 <= p < |s.cells| && 0 <= i < |s.cells|
    requires b == Get(s, a).left && e == Get(s, b).right && p == Get(s, a).parent
    requires a != b && e !in {a, b} && p !in {a, b} && (p == e ==> p == -1)
    ensures RotatedRight(s, a).root == if p == -1 then b else s.root
    ensures Get(RotatedRight(s, a), i) ==
      if i == a then Get(s, a).(parent := b, left := e)
      else if i == b then Get(s, b).(parent := p, right := a)
      else if i == e then Get(s, e).(parent := a)
      else if i == p then if Get(s, p).left == a then Get(s, p).(left := b) else Get(s, p).(right := b)
      else Get(s, i)
  {
  }

  twostate lemma EntryBefore(t: RbTree, new x: RbNode)
    requires x in old(t.nodes) && old(t.Shape())
    ensures 0 <= old(x.pos) < |old(t.order)| && old(t.order)[old(x.pos)] == x
    ensures old(SnapshotOf(t)).root == old(At(t.root)) && |old(SnapshotOf(t)).cells| == |old(t.order)|
    ensures Get(old(SnapshotOf(t)), old(x.pos)) == old(EntryOf(t, x))
  {
    assert old(t.Placed(x));
  }

  /** Positions tell nodes apart. */
  lemma PosApart(t: RbTree, x: RbNode, y: RbNode)
    requires t.Shape() && x in t.nodes && y in t.nodes
    ensures x.pos == y.pos <==> x == y
  {
    assert t.Placed(x); assert t.Placed(y);
  }

  twostate lemma TurnedLeftEntry(t: RbTree, new a: RbNode, new c: RbNode, new x: RbNode)
    requires a in old(t.nodes) && c in old(t.nodes) && x in old(t.nodes)
    requires old(t.Shape()) && t.Shape() && TurnedLeft(t, a, c)
    requires forall y {:trigger y.color} :: y in t.nodes ==> y.color == old(y.color)
    ensures EntryOf(t, x) == Get(RotatedLeft(old(SnapshotOf(t)), a.pos), x.pos)
    ensures RotatedLeft(old(SnapshotOf(t)), a.pos).root == At(t.root)
  {
    hide RotatedLeft, SnapshotOf;
    assert old(t.Linked(a)); assert old(t.Linked(c)); assert old(t.Linked(x));
    assert old(t.Placed(a)); assert old(t.Placed(c)); assert old(t.Placed(x));
    EntryBefore(t, a); EntryBefore(t, c); EntryBefore(t, x);
    var e, p := old(c.left), old(a.parent);
    PosApart(t, a, c); PosApart(t, a, x); PosApart(t, c, x);
    if e != null {
      PosApart(t, e, a); PosApart(t, e, c); PosApart(t, e, x);
      EntryBefore(t, e);
    }
    if p != null {
      PosApart(t, p, a); PosApart(t, p, c); PosApart(t, p, x);
      EntryBefore(t, p);
      assert old(t.Linked(p)); assert old(t.Placed(p));
      if old(p.left) != null {
        PosApart(t, old(p.left), a);
      }
    }
    if e != null && p != null {
      assert old(t.Placed(e));
      PosApart(t, e, p);
    }
    assert t.Linked(x);
    RotatedLeftAt(old(SnapshotOf(t)), a.pos, c.pos, At(e), At(p), x.pos);
  }

  twostate lemma TurnedRightEntry(t: RbTree, new a: RbNode, new b: RbNode, new x: RbNode)
    requires a in old(t.nodes) && b in old(t.nodes) && x in old(t.nodes)
    requires old(t.Shape()) && t.Shape() && TurnedRight(t, a, b)
    requires forall y {:trigger y.color} :: y in t.nodes ==> y.color == old(y.color)
    ensures EntryOf(t, x) == Get(RotatedRight(old(SnapshotOf(t)), a.pos), x.pos)
    ensures RotatedRight(old(SnapshotOf(t)), a.pos).root == At(t.root)
  {
    hide RotatedRight, SnapshotOf;
    assert old(t.Linked(a)); assert old(t.Linked(b)); assert old(t.Linked(x));
    assert old(t.Placed(a)); assert old(t.Placed(b)); assert old(t.Placed(x));
    EntryBefore(t, a); EntryBefore(t, b); EntryBefore(t, x);
    var e, p := old(b.right), old(a.parent);
    PosApart(t, a, b); PosApart(t, a, x); PosApart(t, b, x);
    if e != null {
      PosApart(t, e, a); PosApart(t, e, b); PosApart(t, e, x);
      EntryBefore(t, e);
    }
    if p != null {
      PosApart(t, p, a); PosApart(t, p, b); PosApart(t, p, x);
      EntryBefore(t, p);
      assert old(t.Linked(p)); assert old(t.Placed(p));
      if old(p.left) != null {
        PosApart(t, old(p.left), a);
      }
    }
    if e != null && p != null {
      assert old(t.Placed(e));
      PosApart(t, e, p);
    }
    assert t.Linked(x);
    RotatedRightAt(old(SnapshotOf(t)), a.pos, b.pos, At(e), At(p), x.pos);
  }

  twostate lemma TurnedLeftShown(t: RbTree, new a: RbNode, new c: RbNode)
    requires a in old(t.nodes) && c in old(t.nodes)
    requires old(t.Shape()) && t.Shape() && TurnedLeft(t, a, c)
    requires forall y {:trigger y.color} :: y in t.nodes ==> y.color == old(y.color)
    ensures SnapshotOf(t) == RotatedLeft(old(SnapshotOf(t)), a.pos)
  {
    hide RotatedLeft, SnapshotOf;
    forall x | x in t.nodes ensures EntryOf(t, x) == Get(RotatedLeft(old(SnapshotOf(t)), a.pos), x.pos) {
      TurnedLeftEntry(t, a, c, x);
    }
    TurnedLeftEntry(t, a, c, a);
    EntryBefore(t, a);
    SnapshotIs(t, RotatedLeft(old(SnapshotOf(t)), a.pos));
  }

  twostate lemma TurnedRightShown(t: RbTree, new a: RbNode, new b: RbNode)
    requires a in old(t.nodes) && b in old(t.nodes)
    requires old(t.Shape()) && t.Shape() && TurnedRight(t, a, b)
    requires forall y {:trigger y.color} :: y in t.nodes ==> y.color == old(y.color)
    ensures SnapshotOf(t) == RotatedRight(old(SnapshotOf(t)), a.pos)
  {
    hide RotatedRight, SnapshotOf;
    forall x | x in t.nodes ensures EntryOf(t, x) == Get(RotatedRight(old(SnapshotOf(t)), a.pos), x.pos) {
      TurnedRightEntry(t, a, b, x);
    }
    TurnedRightEntry(t, a, b, a);
    EntryBefore(t, a);
    SnapshotIs(t, RotatedRight(old(SnapshotOf(t)), a.pos));
  }

  twostate predicate LinksKept(t: RbTree)
    reads t`root, t`nodes, t`order, t.nodes`left, t.nodes`right, t.nodes`parent, t.nodes`pos
  {
    && t.root == old(t.root) && t.nodes == old(t.nodes) && t.order == old(t.order)
    && (forall x {:trigger x.left} :: x in t.nodes ==> x.left == old(x.left))
    && (forall x {:trigger x.right} :: x in t.nodes ==> x.right == old(x.right))
    && (forall x {:trigger x.parent} :: x in t.nodes ==> x.parent == old(x.parent))
    && (forall x {:trigger x.pos} :: x in t.nodes ==> x.pos == old(x.pos))
  }

  /** Nothing but the colour of `y` has changed. */
  twostate lemma PaintedShown(t: RbTree, new y: RbNode, new color: Color)
    requires old(t.Shape()) && t.Shape() && LinksKept(t) && y in t.nodes && y.color == color
    requires forall x {:trigger x.color} :: x in t.nodes && x != y ==> x.color == old(x.color)
    ensures SnapshotOf(t) == Paint(old(SnapshotOf(t)), y.pos, color)
  {
    hide SnapshotOf;
    EntryBefore(t, y);
    forall x | x in t.nodes ensures EntryOf(t, x) == Get(Paint(old(SnapshotOf(t)), y.pos, color), x.pos) {
      EntryBefore(t, x);
      PosApart(t, x, y);
      assert t.Linked(x);
    }
    assert t.root != null ==> t.root in t.nodes;
    SnapshotIs(t, Paint(old(SnapshotOf(t)), y.pos, color));
  }

  /** What a pass of the insert loop reads of the tree. */
  lemma PassReads(t: RbTree, node: RbNode, parent: RbNode, gparent: RbNode, uncle: RbNode?)
    requires t.Shape() && {node, parent, gparent} <= t.nodes && node.parent == parent && parent.parent == gparent
    requires uncle == if gparent.left == parent then gparent.right else gparent.left
    ensures Get(SnapshotOf(t), node.pos).parent == parent.pos && Get(SnapshotOf(t), parent.pos).parent == gparent.pos
    ensures Get(SnapshotOf(t), gparent.pos).left == parent.pos <==> gparent.left == parent
    ensures Get(SnapshotOf(t), parent.pos).right == node.pos <==> parent.right == node
    ensures Get(SnapshotOf(t), parent.pos).left == node.pos <==> parent.left == node
    ensures At(uncle) == if gparent.left == parent then Get(SnapshotOf(t), gparent.pos).right else Get(SnapshotOf(t), gparent.pos).left
    ensures At(uncle) != -1 && RedAt(SnapshotOf(t), At(uncle)) <==> IsRed(uncle)
  {
    hide SnapshotOf;
    EntryAt(t, node); EntryAt(t, parent); EntryAt(t, gparent);
    assert t.Linked(node); assert t.Linked(parent); assert t.Linked(gparent);
    if gparent.left != null { PosApart(t, gparent.left, parent); }
    if parent.left != null { PosApart(t, parent.left, node); }
    if parent.right != null { PosApart(t, parent.right, node); }
    if uncle != null { EntryAt(t, uncle); }
  }

  /** Nothing but the colours of `b` and `r` has changed. */
  twostate lemma RepaintedShown(t: RbTree, new b: RbNode, new r: RbNode)
    requires old(t.Shape()) && t.Shape() && LinksKept(t) && b in t.nodes && r in t.nodes && b != r && b.color.Black? && r.color.Red?
    requires forall x {:trigger x.color} :: x in t.nodes && x != b && x != r ==> x.color == old(x.color)
    ensures SnapshotOf(t) == Paint(Paint(old(SnapshotOf(t)), b.pos, Black), r.pos, Red)
  {
    hide SnapshotOf;
    EntryBefore(t, b); EntryBefore(t, r);
    PosApart(t, b, r);
    forall x | x in t.nodes ensures EntryOf(t, x) == Get(Paint(Paint(old(SnapshotOf(t)), b.pos, Black), r.pos, Red), x.pos) {
      EntryBefore(t, x);
      PosApart(t, x, b); PosApart(t, x, r);
      assert t.Linked(x);
    }
    SnapshotIs(t, Paint(Paint(old(SnapshotOf(t)), b.pos, Black), r.pos, Red));
  }

  /** Nothing but the colours of `b`, `r` and `u` has changed. */
  twostate lemma RecolouredShown(t: RbTree, new b: RbNode, new r: RbNode, new u: RbNode)
    requires old(t.Shape()) && t.Shape() && LinksKept(t) && {b, r, u} <= t.nodes && b != r && r != u && b != u
    requires b.color.Black? && r.color.Red? && u.color.Black?
    requires forall x {:trigger x.color} :: x in t.nodes && x !in {b, r, u} ==> x.color == old(x.color)
    ensures SnapshotOf(t) == Paint(Paint(Paint(old(SnapshotOf(t)), b.pos, Black), r.pos, Red), u.pos, Black)
  {
    hide SnapshotOf;
    EntryBefore(t, b); EntryBefore(t, r); EntryBefore(t, u);
    PosApart(t, b, r); PosApart(t, b, u); PosApart(t, u, r);
    var s := Paint(Paint(Paint(old(SnapshotOf(t)), b.pos, Black), r.pos, Red), u.pos, Black);
    forall x | x in t.nodes ensures EntryOf(t, x) == Get(s, x.pos) {
      EntryBefore(t, x);
      PosApart(t, x, b); PosApart(t, x, r); PosApart(t, x, u);
      assert t.Linked(x);
    }
    SnapshotIs(t, s);
  }

  // ----- the rotations on snapshots -----

  method RotateLeftShown(t: RbTree, a: RbNode)
    requires t.Shape() && a in t.nodes && a.right != null
    modifies t`root, t.nodes`left, t.nodes`right, t.nodes`parent, t.nodes`lo, t.nodes`hi
    ensures t.Shape() && TurnedLeft(t, a, old(a.right))
    ensures SnapshotOf(t) == RotatedLeft(old(SnapshotOf(t)), a.pos)
  {
    hide SnapshotOf, RotatedLeft;
    assert t.Linked(a);
    RotateLeft(t, a);
    TurnedLeftShown(t, a, old(a.right));
  }

  method RotateRightShown(t: RbTree, a: RbNode)
    requires t.Shape() && a in t.nodes && a.left != null
    modifies t`root, t.nodes`left, t.nodes`right, t.nodes`parent, t.nodes`lo, t.nodes`hi
    ensures t.Shape() && TurnedRight(t, a, old(a.left))
    ensures SnapshotOf(t) == RotatedRight(old(SnapshotOf(t)), a.pos)
  {
    hide SnapshotOf, RotatedRight;
    assert t.Linked(a);
    RotateRight(t, a);
    TurnedRightShown(t, a, old(a.left));
  }
}
