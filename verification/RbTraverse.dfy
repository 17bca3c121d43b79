/** Lookup and traversal of src/rbtree.c. */
module RbTraverse {
  import opened RbModel

  /** The member at in-order position `i`, or nothing. */
  ghost function At(t: RbTree, i: int): RbNode?
    reads t`order
  {
    if 0 <= i < |t.order| then t.order[i] else null
  }

  /** rbt_min */
  method Min(t: RbTree) returns (r: RbNode?)
    requires t.Valid()
    ensures r == At(t, 0)
  {
    return t.cachedMin;
  }

  /** rbt_max */
  method Max(t: RbTree) returns (r: RbNode?)
    requires t.Shape()
    ensures r == At(t, |t.order| - 1)
  {
    var cur := t.root;
    if cur != null {
      assert t.Placed(cur);
      while cur.right != null
        invariant cur != null && cur in t.nodes && cur.hi == |t.order|
        invariant t.Placed(cur) && t.Linked(cur)
        decreases cur.hi - cur.lo
      {
        cur := cur.right;
        assert t.Linked(cur); assert t.Placed(cur);
      }
    }
    return cur;
  }

  /** rbnode_next */
  method Next(ghost t: RbTree, n: RbNode?) returns (r: RbNode?)
    requires t.Shape() && (n == null || n in t.nodes)
    ensures r == if n == null then null else At(t, n.pos + 1)
  {
    var cur := n;
    if cur == null {
      return null;
    }
    assert t.Linked(cur); assert t.Placed(cur);
    if cur.right != null {
      cur := cur.right;
      assert t.Linked(cur); assert t.Placed(cur);
      while cur.left != null
        invariant cur != null && cur in t.nodes && cur.lo == n.pos + 1
        invariant t.Placed(cur) && t.Linked(cur)
        decreases cur.hi - cur.lo
      {
        cur := cur.left;
        assert t.Linked(cur); assert t.Placed(cur);
      }
    } else {
      while cur.parent != null && cur.parent.left != cur
        invariant cur != null && cur in t.nodes && cur.hi == n.pos + 1
        invariant t.Placed(cur) && t.Linked(cur)
        decreases |t.order| - (cur.hi - cur.lo)
      {
        cur := cur.parent;
        assert t.Linked(cur); assert t.Placed(cur);
      }
      cur := cur.parent;
      if cur != null {
        assert t.Linked(cur); assert t.Placed(cur);
      }
    }
    return cur;
  }

  /** rbnode_prev */
  method Prev(ghost t: RbTree, n: RbNode?) returns (r: RbNode?)
    requires t.Shape() && (n == null || n in t.nodes)
    ensures r == if n == null then null else At(t, n.pos - 1)
  {
    var cur := n;
    if cur == null {
      return null;
    }
    assert t.Linked(cur); assert t.Placed(cur);
    if cur.left != null {
      cur := cur.left;
      assert t.Linked(cur); assert t.Placed(cur);
      while cur.right != null
        invariant cur != null && cur in t.nodes && cur.hi == n.pos
        invariant t.Placed(cur) && t.Linked(cur)
        decreases cur.hi - cur.lo
      {
        cur := cur.right;
        assert t.Linked(cur); assert t.Placed(cur);
      }
    } else {
      while cur.parent != null && cur.parent.right != cur
        invariant cur != null && cur in t.nodes && cur.lo == n.pos
        invariant t.Placed(cur) && t.Linked(cur)
        decreases |t.order| - (cur.hi - cur.lo)
      {
        cur := cur.parent;
        assert t.Linked(cur); assert t.Placed(cur);
      }
      cur := cur.parent;
      if cur != null {
        assert t.Linked(cur); assert t.Placed(cur);
      }
    }
    return cur;
  }

  /** Stepping from the minimum meets every member once, in increasing order. */
  method Walk(t: RbTree) returns (seen: seq<RbNode>)
    requires t.Valid()
    ensures seen == t.order
    ensures forall i, j :: 0 <= i < j < |seen| ==> t.Less(seen[i], seen[j])
  {
    seen := [];
    var cur := Min(t);
    while cur != null
      invariant |seen| <= |t.order| && seen == t.order[..|seen|] && cur == At(t, |seen|)
      decreases |t.order| - |seen|
    {
      seen := seen + [cur];
      cur := Next(t, cur);
    }
  }

  /** rbt_find: it turns left where rbt_insert turns right, so only the root can be found. */
  method Find(t: RbTree, n: RbNode) returns (r: RbNode?)
    requires t.Valid() && TotalOrder(t.compare)
    ensures r != null <==> t.root != null && t.compare(t.root.key, n.key) == 0
    ensures r != null ==> r == t.root
    ensures n in t.nodes && n != t.root ==> r == null
  {
    var cur := t.root;
    if t.root != null {
      assert t.Placed(t.root);
      if n in t.nodes && n != t.root {
        assert t.Placed(n);
        assert t.Less(t.order[if n.pos < t.root.pos then n.pos else t.root.pos], t.order[if n.pos < t.root.pos then t.root.pos else n.pos]);
      }
    }
    while cur != null
      invariant cur != null ==> cur in t.nodes && t.Placed(cur) && t.Linked(cur)
      invariant cur != t.root ==> t.root != null && t.compare(t.root.key, n.key) != 0
      invariant cur != null && cur != t.root && t.compare(t.root.key, n.key) < 0 ==> cur.hi <= t.root.pos
      invariant cur != null && cur != t.root && t.compare(t.root.key, n.key) > 0 ==> cur.lo > t.root.pos
      decreases if cur == null then 0 else cur.hi - cur.lo
    {
      var cmp := t.compare(cur.key, n.key);
      if cmp == 0 {
        return cur;
      } else if cmp < 0 {
        cur := cur.left;
      } else {
        cur := cur.right;
      }
      if cur != null {
        assert t.Linked(cur); assert t.Placed(cur);
      }
    }
    return cur;
  }
}
