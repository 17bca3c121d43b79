/** The balance checks of src/test/rbtree_test.c, and what a balanced tree means for its height. */
module RbCheck {
  import opened RbModel
  import opened NumberTheory

  ghost function Size(x: RbNode?): int
    reads Cell(x)`lo, Cell(x)`hi
  {
    if x == null then 0 else x.hi - x.lo
  }

  lemma KidsSmaller(t: RbTree, x: RbNode)
    requires t.Shape() && x in t.nodes
    ensures t.KidsIn(x) && 0 <= Size(x.left) < Size(x) && 0 <= Size(x.right) < Size(x)
    ensures Size(x) == Size(x.left) + 1 + Size(x.right)
  {
    assert t.Linked(x); assert t.Placed(x);
    if x.left != null {
      var l: RbNode := x.left;
      assert t.Placed(l);
    }
    if x.right != null {
      var r: RbNode := x.right;
      assert t.Placed(r);
    }
  }

  /** check_black_height: the black nodes on every path, a missing child included, or -1. */
  ghost function CheckBlackHeight(t: RbTree, x: RbNode?, cur: int): (r: int)
    requires t.Shape() && (x == null || x in t.nodes)
    reads t`root, t`nodes, t`order, t.nodes`left, t.nodes`right, t.nodes`parent, t.nodes`lo, t.nodes`pos, t.nodes`hi, t.nodes`color
    decreases Size(x)
  {
    var cur' := if x == null || x.color.Black? then cur + 1 else cur;
    if x == null then cur' else
      KidsSmaller(t, x);
      var left := CheckBlackHeight(t, x.left, cur');
      if left < 0 then -1 else
        var right := CheckBlackHeight(t, x.right, cur');
        if right < 0 then -1 else if left != right then -1 else left
  }

  /** check_red_red: 0, or -1 when a red node has a red parent. */
  ghost function CheckRedRed(t: RbTree, x: RbNode?, parentColor: Color): (r: int)
    requires t.Shape() && (x == null || x in t.nodes)
    reads t`root, t`nodes, t`order, t.nodes`left, t.nodes`right, t.nodes`parent, t.nodes`lo, t.nodes`pos, t.nodes`hi, t.nodes`color
    decreases Size(x)
  {
    if x == null then 0 else
      KidsSmaller(t, x);
      if x.color.Red? && parentColor.Red? then -1
      else if CheckRedRed(t, x.left, x.color) < 0 then -1
      else if CheckRedRed(t, x.right, x.color) < 0 then -1
      else 0
  }

  ghost predicate Passes(t: RbTree)
    requires t.Shape()
    reads t`root, t`nodes, t`order, t.nodes`left, t.nodes`right, t.nodes`parent, t.nodes`lo, t.nodes`pos, t.nodes`hi, t.nodes`color
  {
    CheckBlackHeight(t, t.root, 0) >= 0 && CheckRedRed(t, t.root, Red) >= 0
  }

  lemma {:induction false} GradedHeight(t: RbTree, x: RbNode?, cur: int)
    requires t.Shape() && t.Graded() && (x == null || x in t.nodes) && cur >= 0
    ensures CheckBlackHeight(t, x, cur) == cur + Count(x) + 1 && Count(x) >= 0
    decreases Size(x)
  {
    if x != null {
      KidsSmaller(t, x);
      assert t.Counted(x); assert t.Level(x);
      var cur' := if x.color.Black? then cur + 1 else cur;
      GradedHeight(t, x.left, cur');
      GradedHeight(t, x.right, cur');
    }
  }

  lemma {:induction false} GradedCalm(t: RbTree, x: RbNode?, c: Color)
    requires t.Shape() && t.Graded() && (x == null || x in t.nodes)
    requires c.Red? ==> !IsRed(x)
    ensures CheckRedRed(t, x, c) == 0
    decreases Size(x)
  {
    if x != null {
      KidsSmaller(t, x);
      assert t.Calm(x, null);
      GradedCalm(t, x.left, x.color);
      GradedCalm(t, x.right, x.color);
    }
  }

  lemma GradedPasses(t: RbTree)
    requires t.Shape() && t.Graded() && !IsRed(t.root)
    ensures Passes(t)
  {
    GradedHeight(t, t.root, 0);
    GradedCalm(t, t.root, Red);
  }

  lemma {:induction false} CheckedIsCounted(t: RbTree, x: RbNode?, cur: int)
    requires t.Shape() && (x == null || x in t.nodes) && cur >= 0
    requires forall y {:trigger t.Counted(y)} :: y in t.nodes ==> t.Counted(y)
    ensures CheckBlackHeight(t, x, cur) >= 0 ==> CheckBlackHeight(t, x, cur) == cur + Count(x) + 1
    decreases Size(x)
  {
    if x != null {
      KidsSmaller(t, x);
      assert t.Counted(x);
      var cur' := if x.color.Black? then cur + 1 else cur;
      CheckedIsCounted(t, x.left, cur');
    }
  }

  /** A node with unequal subtrees makes the check fail at the node and at every ancestor. */
  lemma {:induction false} UnlevelFails(t: RbTree, w: RbNode, x: RbNode, cur: int)
    requires t.Shape() && w in t.nodes && x in t.nodes && Under(w, x) && cur >= 0
    requires forall y {:trigger t.Counted(y)} :: y in t.nodes ==> t.Counted(y)
    requires !t.Level(w)
    ensures CheckBlackHeight(t, x, cur) < 0
    decreases Size(x)
  {
    KidsSmaller(t, x);
    assert t.Placed(x); assert t.Placed(w);
    var cur' := if x.color.Black? then cur + 1 else cur;
    if w == x {
      CheckedIsCounted(t, x.left, cur');
      CheckedIsCounted(t, x.right, cur');
    } else if w.pos < x.pos {
      UnlevelFails(t, w, x.left, cur');
    } else {
      UnlevelFails(t, w, x.right, cur');
    }
  }

  lemma UnlevelNeverPasses(t: RbTree, w: RbNode)
    requires t.Shape() && w in t.nodes && !t.Level(w)
    requires forall y {:trigger t.Counted(y)} :: y in t.nodes ==> t.Counted(y)
    ensures !Passes(t)
  {
    assert t.Placed(w); assert t.order != []; assert t.Linked(t.root); assert t.Placed(t.root);
    UnlevelFails(t, w, t.root, 0);
  }

  // ----- height -----

  lemma {:induction false} PowMonotone(a: nat, b: nat)
    requires a <= b
    ensures Pow(2, a) <= Pow(2, b)
    decreases b
  {
    if a < b {
      PowMonotone(a, b - 1);
    }
  }

  /** The nodes on the longest path down from `x`. */
  ghost function Height(t: RbTree, x: RbNode?): (h: nat)
    requires t.Shape() && (x == null || x in t.nodes)
    reads t`root, t`nodes, t`order, t.nodes`left, t.nodes`right, t.nodes`parent, t.nodes`lo, t.nodes`pos, t.nodes`hi
    decreases Size(x)
  {
    if x == null then 0 else
      KidsSmaller(t, x);
      var l, r := Height(t, x.left), Height(t, x.right);
      1 + if l < r then r else l
  }

  lemma {:induction false} HeightByBlacks(t: RbTree, x: RbNode?)
    requires t.Shape() && t.Graded() && (x == null || x in t.nodes)
    ensures Count(x) >= 0
    ensures Height(t, x) <= 2 * Count(x) + if IsRed(x) then 1 else 0
    ensures Pow(2, Count(x)) <= Size(x) + 1
    decreases Size(x)
  {
    if x != null {
      KidsSmaller(t, x);
      assert t.Counted(x); assert t.Level(x); assert t.Calm(x, null);
      HeightByBlacks(t, x.left);
      HeightByBlacks(t, x.right);
    }
  }

  lemma SquareMonotone(x: int, y: int)
    requires 0 <= x <= y
    ensures x * x <= y * y
  {
    assert x * (y - x) >= 0 && y * (y - x) >= 0;
  }

  /** n nodes give a height of at most 2 * log2(n + 1). */
  lemma HeightBound(t: RbTree)
    requires t.Shape() && t.Graded() && !IsRed(t.root)
    ensures Pow(2, Height(t, t.root)) <= (|t.order| + 1) * (|t.order| + 1)
  {
    hide Pow;
    HeightByBlacks(t, t.root);
    var b := Count(t.root);
    if t.root != null {
      assert t.Placed(t.root);
    }
    PowMonotone(Height(t, t.root), b + b);
    PowAdd(2, b, b);
    SquareMonotone(Pow(2, b), |t.order| + 1);
  }
}
