/** Seven keys after which the tree is out of balance, and three removals that then meet a missing sibling. */
module RbCounterexample {
  import opened RbModel
  import opened RbCheck
  import opened RbSnapshot
  import opened RbStuck
  import opened RbInsert
  import opened RbRemove

  function Minus(a: int, b: int): int
  {
    a - b
  }

  /** The tree holds the keys, in this order, with links and colours as in `s`. */
  ghost predicate Holds(t: RbTree, keys: seq<int>, s: Snapshot)
    reads t, t.nodes
  {
    && t.Valid() && t.compare == Minus && |t.order| == |keys| && SnapshotOf(t) == s
    && forall i :: 0 <= i < |keys| ==> t.order[i].key == keys[i]
  }

  lemma MemberKey(t: RbTree, keys: seq<int>, s: Snapshot, x: RbNode)
    requires Holds(t, keys, s) && x in t.nodes
    ensures x.key in keys
  {
    assert t.Placed(x);
  }

  /** A key that belongs at position `at`. */
  predicate Fits(keys: seq<int>, at: int, key: int)
  {
    && 0 <= at <= |keys|
    && (forall i :: 0 <= i < at ==> keys[i] < key)
    && (forall i :: at <= i < |keys| ==> key < keys[i])
  }

  /** Only one position keeps the keys in order. */
  lemma PlaceFound(was: seq<RbNode>, now: seq<RbNode>, n: RbNode, p: int, keys: seq<int>, at: int)
    requires 0 <= p <= |was| && now == was[..p] + [n] + was[p..]
    requires |was| == |keys| && (forall i :: 0 <= i < |keys| ==> was[i].key == keys[i])
    requires Fits(keys, at, n.key) && forall i, j {:trigger now[i], now[j]} :: 0 <= i < j < |now| ==> now[i].key < now[j].key
    ensures p == at && forall i :: 0 <= i < |now| ==> now[i].key == (keys[..at] + [n.key] + keys[at..])[i]
  {
    assert now[p] == n;
    forall i | 0 <= i < |was| ensures if i < p then keys[i] < n.key else n.key < keys[i] {
      assert was[i] == now[if i < p then i else i + 1];
    }
    assert p < |was| ==> n.key < keys[p];
    assert 0 < p ==> keys[p - 1] < n.key;
  }

  lemma KeysAscend(t: RbTree)
    requires t.Sorted() && t.compare == Minus
    ensures forall i, j {:trigger t.order[i], t.order[j]} :: 0 <= i < j < |t.order| ==> t.order[i].key < t.order[j].key
  {
    forall i, j {:trigger t.order[i], t.order[j]} | 0 <= i < j < |t.order| ensures t.order[i].key < t.order[j].key {
      assert t.Less(t.order[i], t.order[j]);
    }
  }

  method InsertKey(t: RbTree, key: int, ghost keys: seq<int>, ghost s: Snapshot, ghost at: nat)
    requires Holds(t, keys, s) && Fits(keys, at, key) && |s.cells| == |keys|
    modifies t, t.nodes
    ensures Holds(t, keys[..at] + [key] + keys[at..], Inserted(s, at))
    ensures fresh(t.nodes - old(t.nodes))
  {
    hide SnapshotOf, Inserted, RbTree.Shape;
    var n := new RbNode(key);
    forall x | x in t.nodes ensures t.compare(key, x.key) != 0 {
      MemberKey(t, keys, s, x);
    }
    var ok := Insert(t, n);
    KeysAscend(t);
    PlaceFound(old(t.order), t.order, n, n.pos, keys, at);
  }

  // ----- the snapshots after each insertion -----

  function One(): Snapshot { Snapshot(0, [Entry(-1, -1, -1, Black)]) }

  function Two(): Snapshot { Snapshot(1, [Entry(1, -1, -1, Red), Entry(-1, 0, -1, Black)]) }

  function Three(): Snapshot { Snapshot(1, [Entry(1, -1, -1, Red), Entry(-1, 0, 2, Black), Entry(1, -1, -1, Red)]) }

  function Four(): Snapshot
  {
    Snapshot(2, [Entry(1, -1, -1, Red), Entry(2, 0, -1, Black), Entry(-1, 1, 3, Black), Entry(2, -1, -1, Black)])
  }

  function Five(): Snapshot
  {
    Snapshot(3, [Entry(1, -1, -1, Red), Entry(3, 0, 2, Black), Entry(1, -1, -1, Red), Entry(-1, 1, 4, Black), Entry(3, -1, -1, Black)])
  }

  /** Keys 10, 20, 30, 40, 50, 60: a red-black tree. */
  function Six(): Snapshot
  {
    Snapshot(4, [Entry(1, -1, -1, Black), Entry(4, 0, 3, Red), Entry(3, -1, -1, Red), Entry(1, 2, -1, Black), Entry(-1, 1, 5, Black), Entry(4, -1, -1, Black)])
  }

  /** Keys 10, 20, 30, 35, 40, 50, 60: the red node 20 has a red child. */
  function Seven(): Snapshot
  {
    Snapshot(3, [Entry(1, -1, -1, Black), Entry(3, 0, 2, Red), Entry(1, -1, -1, Red), Entry(-1, 1, 5, Black),
                 Entry(5, -1, -1, Red), Entry(3, 4, 6, Red), Entry(5, -1, -1, Black)])
  }

  lemma Same(a: Snapshot, b: Snapshot)
    requires a.root == b.root && |a.cells| == |b.cells| && forall i {:trigger Get(a, i)} :: 0 <= i < |a.cells| ==> Get(a, i) == Get(b, i)
    ensures a == b
  {
    forall i | 0 <= i < |a.cells| ensures a.cells[i] == b.cells[i] {
      assert Get(a, i) == Get(b, i);
    }
    assert a.cells == b.cells;
  }

  lemma HungIs(s: Snapshot, at: int, left: bool, r: Snapshot)
    requires s.cells != [] && 0 <= at <= |s.cells| && (left <==> at < |s.cells| && s.cells[at].left == -1)
    requires r.root == Shift(s.root, at) && |r.cells| == |s.cells| + 1
    requires forall i :: 0 <= i < |r.cells| ==> r.cells[i] == if i == at then Entry(if left then at + 1 else at - 1, -1, -1, Red)
      else
        var c := Shifted(s.cells[if i < at then i else i - 1], at);
        if i != (if left then at + 1 else at - 1) then c else if left then c.(left := at) else c.(right := at)
    ensures Hung(s, at) == r
  {
    forall i | 0 <= i < |r.cells| ensures Get(Hung(s, at), i) == Get(r, i) {
      HungAt(s, at, left, i);
    }
    HungAt(s, at, left, at);
    Same(Hung(s, at), r);
  }

  lemma FirstThree()
    ensures Inserted(Snapshot(-1, []), 0) == One()
    ensures Inserted(One(), 0) == Two()
    ensures Inserted(Two(), 2) == Three()
  {
    HungIs(One(), 0, true, Two());
    HungIs(Two(), 2, false, Three());
  }

  lemma Fourth()
    ensures Inserted(Three(), 0) == Four()
  {
    var h := Snapshot(2, [Entry(1, -1, -1, Red), Entry(2, 0, -1, Red), Entry(-1, 1, 3, Black), Entry(2, -1, -1, Red)]);
    HungIs(Three(), 0, true, h);
    var k := Snapshot(2, [Entry(1, -1, -1, Red), Entry(2, 0, -1, Black), Entry(-1, 1, 3, Red), Entry(2, -1, -1, Black)]);
    var a := Snapshot(2, [Entry(1, -1, -1, Red), Entry(2, 0, -1, Black), Entry(-1, 1, 3, Black), Entry(2, -1, -1, Red)]);
    var b := Snapshot(2, [Entry(1, -1, -1, Red), Entry(2, 0, -1, Black), Entry(-1, 1, 3, Red), Entry(2, -1, -1, Red)]);
    assert Paint(h, 1, Black) == a && Paint(a, 2, Red) == b && Paint(b, 3, Black) == k;
    assert Pass(h, 0) == (k, 2);
    assert Loop(h, 0, 4) == Loop(k, 2, 3) == k;
    assert Paint(k, 2, Black) == Four();
  }

  lemma Fifth()
    ensures Inserted(Four(), 2) == Five()
  {
    HungIs(Four(), 2, false, Five());
    assert Loop(Five(), 2, 5) == Five();
    assert Paint(Five(), 3, Black) == Five();
  }

  lemma Sixth()
    ensures Inserted(Five(), 2) == Six()
  {
    var h := Snapshot(4, [Entry(1, -1, -1, Red), Entry(4, 0, 3, Black), Entry(3, -1, -1, Red), Entry(1, 2, -1, Red), Entry(-1, 1, 5, Black), Entry(4, -1, -1, Black)]);
    HungIs(Five(), 2, true, h);
    var a := Snapshot(4, [Entry(1, -1, -1, Red), Entry(4, 0, 3, Black), Entry(3, -1, -1, Red), Entry(1, 2, -1, Black), Entry(-1, 1, 5, Black), Entry(4, -1, -1, Black)]);
    var b := Snapshot(4, [Entry(1, -1, -1, Red), Entry(4, 0, 3, Red), Entry(3, -1, -1, Red), Entry(1, 2, -1, Black), Entry(-1, 1, 5, Black), Entry(4, -1, -1, Black)]);
    assert Paint(h, 3, Black) == a && Paint(a, 1, Red) == b && Paint(b, 0, Black) == Six();
    assert Pass(h, 2) == (Six(), 1);
    assert Loop(h, 2, 6) == Loop(Six(), 1, 5) == Six();
    assert Paint(Six(), 4, Black) == Six();
  }

  /** 35 hangs right of 30. */
  function Hanging(): Snapshot
  {
    Snapshot(5, [Entry(1, -1, -1, Black), Entry(5, 0, 4, Red), Entry(4, -1, 3, Red), Entry(2, -1, -1, Red), Entry(1, 2, -1, Black), Entry(-1, 1, 6, Black), Entry(5, -1, -1, Black)])
  }

  /** 35 has taken the place of 40 and is black; its parent 20 is red. */
  function Halfway(): Snapshot
  {
    Snapshot(5, [Entry(1, -1, -1, Black), Entry(5, 0, 3, Red), Entry(3, -1, -1, Red), Entry(1, 2, 4, Black), Entry(3, -1, -1, Red), Entry(-1, 1, 6, Black), Entry(5, -1, -1, Black)])
  }

  lemma FirstPass()
    ensures Pass(Hanging(), 3) == (Halfway(), 3)
  {
    var a := Snapshot(5, [Entry(1, -1, -1, Black), Entry(5, 0, 4, Red), Entry(3, -1, -1, Red), Entry(4, 2, -1, Red), Entry(1, 3, -1, Black), Entry(-1, 1, 6, Black), Entry(5, -1, -1, Black)]);
    var b := Snapshot(5, [Entry(1, -1, -1, Black), Entry(5, 0, 3, Red), Entry(3, -1, -1, Red), Entry(1, 2, 4, Red), Entry(3, -1, -1, Black), Entry(-1, 1, 6, Black), Entry(5, -1, -1, Black)]);
    var c := Snapshot(5, [Entry(1, -1, -1, Black), Entry(5, 0, 3, Red), Entry(3, -1, -1, Red), Entry(1, 2, 4, Black), Entry(3, -1, -1, Black), Entry(-1, 1, 6, Black), Entry(5, -1, -1, Black)]);
    assert RotatedLeft(Hanging(), 2) == a;
    assert RotatedRight(a, 4) == b;
    assert Paint(b, 3, Black) == c && Paint(c, 4, Red) == Halfway();
  }

  lemma SecondPass()
    ensures Pass(Halfway(), 3) == (Seven(), 3)
  {
    var a := Snapshot(5, [Entry(1, -1, -1, Black), Entry(3, 0, 2, Red), Entry(1, -1, -1, Red), Entry(5, 1, 4, Black), Entry(3, -1, -1, Red), Entry(-1, 3, 6, Black), Entry(5, -1, -1, Black)]);
    var b := Snapshot(3, [Entry(1, -1, -1, Black), Entry(3, 0, 2, Red), Entry(1, -1, -1, Red), Entry(-1, 1, 5, Black), Entry(5, -1, -1, Red), Entry(3, 4, 6, Black), Entry(5, -1, -1, Black)]);
    assert RotatedLeft(Halfway(), 1) == a;
    assert RotatedRight(a, 5) == b;
    assert Paint(b, 3, Black) == b && Paint(b, 5, Red) == Seven();
  }

  /** The first pass leaves 35 black below the red 20, and the guard, which tests the parent only, lets the loop go on. */
  lemma Seventh()
    ensures Inserted(Six(), 3) == Seven()
  {
    HungIs(Six(), 3, false, Hanging());
    FirstPass();
    SecondPass();
    hide Pass;
    assert Loop(Hanging(), 3, 7) == Loop(Halfway(), 3, 6) == Loop(Seven(), 3, 5) == Seven();
    assert Paint(Seven(), 3, Black) == Seven();
  }

  // ----- the trees -----

  /** The pointers of the node at position `i`. */
  lemma Pointers(t: RbTree, i: int)
    requires t.Shape() && 0 <= i < |t.order|
    ensures t.order[i] in t.nodes && |SnapshotOf(t).cells| == |t.order|
    ensures var x, e := t.order[i], SnapshotOf(t).cells[i];
      && x.color == e.color && x.pos == i
      && (if e.left == -1 then x.left == null else 0 <= e.left < |t.order| && x.left == t.order[e.left])
      && (if e.right == -1 then x.right == null else 0 <= e.right < |t.order| && x.right == t.order[e.right])
      && (if e.parent == -1 then x.parent == null else 0 <= e.parent < |t.order| && x.parent == t.order[e.parent])
    ensures if SnapshotOf(t).root == -1 then t.root == null else 0 <= SnapshotOf(t).root < |t.order| && t.root == t.order[SnapshotOf(t).root]
  {
    var x := t.order[i];
    SnapshotSize(t);
    EntryAt(t, x);
    hide SnapshotOf;
    assert t.Linked(x);
    if x.left != null { assert t.Placed(x.left); }
    if x.right != null { assert t.Placed(x.right); }
    if x.parent != null { assert t.Placed(x.parent); }
    if t.root != null { assert t.Placed(t.root); }
  }

  function SixKeys(): seq<int> { [10, 20, 30, 40, 50, 60] }

  function SevenKeys(): seq<int> { [10, 20, 30, 35, 40, 50, 60] }

  method ThreeInsertions() returns (t: RbTree)
    ensures fresh(t) && fresh(t.nodes) && Holds(t, [20, 50, 60], Three())
  {
    hide SnapshotOf, Inserted;
    t := new RbTree(Minus);
    SnapshotSize(t);
    FirstThree();
    InsertKey(t, 50, [], Snapshot(-1, []), 0);
    assert [][..0] + [50] + [][0..] == [50];
    InsertKey(t, 20, [50], One(), 0);
    assert [50][..0] + [20] + [50][0..] == [20, 50];
    InsertKey(t, 60, [20, 50], Two(), 2);
    assert [20, 50][..2] + [60] + [20, 50][2..] == [20, 50, 60];
  }

  /** Inserting 50, 20, 60, 10, 40 and 30 leaves a tree that passes the balance checks. */
  method SixInsertions() returns (t: RbTree)
    ensures fresh(t) && fresh(t.nodes) && Holds(t, SixKeys(), Six()) && Passes(t)
  {
    hide SnapshotOf, Passes, Holds;
    t := ThreeInsertions();
    ThreeMore(t);
    SixPass(t);
  }

  method ThreeMore(t: RbTree)
    requires Holds(t, [20, 50, 60], Three())
    modifies t, t.nodes
    ensures fresh(t.nodes - old(t.nodes)) && Holds(t, SixKeys(), Six())
  {
    hide SnapshotOf, Inserted, Holds;
    Fourth(); Fifth(); Sixth();
    InsertKey(t, 10, [20, 50, 60], Three(), 0);
    assert [20, 50, 60][..0] + [10] + [20, 50, 60][0..] == [10, 20, 50, 60];
    InsertKey(t, 40, [10, 20, 50, 60], Four(), 2);
    assert [10, 20, 50, 60][..2] + [40] + [10, 20, 50, 60][2..] == [10, 20, 40, 50, 60];
    InsertKey(t, 30, [10, 20, 40, 50, 60], Five(), 2);
    assert [10, 20, 40, 50, 60][..2] + [30] + [10, 20, 40, 50, 60][2..] == SixKeys();
  }

  lemma SixPass(t: RbTree)
    requires Holds(t, SixKeys(), Six())
    ensures Passes(t)
  {
    Pointers(t, 0); Pointers(t, 1); Pointers(t, 2); Pointers(t, 3); Pointers(t, 4); Pointers(t, 5);
    hide SnapshotOf;
    assert CheckBlackHeight(t, t.order[2], 2) == 3;
    assert CheckBlackHeight(t, t.order[0], 1) == 3;
    assert CheckBlackHeight(t, t.order[3], 1) == 3;
    assert CheckBlackHeight(t, t.order[1], 1) == 3;
    assert CheckBlackHeight(t, t.order[5], 1) == 3;
    assert CheckRedRed(t, t.order[2], Black) == 0;
    assert CheckRedRed(t, t.order[0], Red) == 0;
    assert CheckRedRed(t, t.order[3], Red) == 0;
    assert CheckRedRed(t, t.order[1], Black) == 0;
    assert CheckRedRed(t, t.order[5], Black) == 0;
  }

  /** Inserting 35 next leaves an ordered tree that fails the balance checks. */
  method InsertLosesBalance(t: RbTree)
    requires Holds(t, SixKeys(), Six())
    modifies t, t.nodes
    ensures Holds(t, SevenKeys(), Seven()) && !Passes(t)
  {
    hide SnapshotOf, Inserted;
    Seventh();
    InsertKey(t, 35, SixKeys(), Six(), 3);
    SevenFail(t);
  }

  lemma SevenFail(t: RbTree)
    requires Holds(t, SevenKeys(), Seven())
    ensures !Passes(t)
  {
    Pointers(t, 1); Pointers(t, 2); Pointers(t, 3);
    hide SnapshotOf;
    assert CheckRedRed(t, t.order[2], Red) < 0;
    assert CheckRedRed(t, t.order[1], Black) < 0;
  }

  /** From that tree 10, 50 and 60 cannot be removed: each removal takes out a black node whose sibling is red and has no
      child on the side of the gap. */
  lemma SevenCrash(t: RbTree, i: int)
    requires Holds(t, SevenKeys(), Seven()) && 0 <= i < 7
    ensures t.order[i] in t.nodes && (Crashes(t, t.order[i]) <==> i == 0 || i == 5 || i == 6)
  {
    Pointers(t, 0); Pointers(t, 1); Pointers(t, 2); Pointers(t, 3); Pointers(t, 4); Pointers(t, 5); Pointers(t, 6);
    hide SnapshotOf;
    assert Stuck(t, t.order[1], true);
    assert Stuck(t, t.order[5], false);
  }
}
