/**
 * The shape side of `removeNode`: the subtree that takes the place of a
 * removed node, and what removal does to keys, handles and order.
 */
module Deletion {
  import opened Shape

  /**
   * The subtree that replaces `s` when its root is removed: the one child
   * when the other is absent, otherwise the predecessor (the rightmost
   * node of the left subtree) moved up, its own left subtree taking its
   * old place.
   */
  function DeleteRoot(s: Tree): Tree
    requires s.Branch?
  {
    if s.left.Empty? then s.right
    else if s.right.Empty? then s.left
    else
      var (d, e, m, mk) := SplitMax(s.left);
      Branch(Plug(d, e), m, mk, s.right)
  }

  /** Removing the root keeps the other keys in order and the other handles. */
  lemma DeleteRootContents(s: Tree)
    requires s.Branch?
    ensures Inorder(DeleteRoot(s)) == Inorder(s.left) + Inorder(s.right)
    ensures Refs(DeleteRoot(s)) == Refs(s.left) + Refs(s.right)
  {
    if s.left.Branch? && s.right.Branch? {
      var (d, e, m, mk) := SplitMax(s.left);
      PlugInorder(d, e);
      PlugInorder(d, Branch(e, m, mk, Empty));
      RightPathHasNoRightKeys(d);
      PlugRefs(d, e);
      PlugRefs(d, Branch(e, m, mk, Empty));
    }
  }

  /** Removing the root of a subtree over distinct nodes leaves distinct nodes. */
  lemma DeleteRootDistinct(s: Tree)
    requires s.Branch? && Distinct(s)
    ensures Distinct(DeleteRoot(s))
  {
    if s.left.Branch? && s.right.Branch? {
      var (d, e, m, mk) := SplitMax(s.left);
      PlugDistinct(d, Branch(e, m, mk, Empty));
      PlugDistinct(d, e);
      PlugRefs(d, e);
      PlugRefs(d, Branch(e, m, mk, Empty));
    }
  }

  /**
   * Removing the node at the hole of `c` from a search tree over distinct
   * nodes gives a search tree over distinct nodes whose keys are the old
   * ones without the removed key, in the same order, and whose handles are
   * the old ones without the removed handle.
   */
  lemma RemovedFacts(c: Ctx, s: Tree)
    requires s.Branch? && Distinct(Plug(c, s)) && Bst(Plug(c, s))
    ensures var t, t' := Plug(c, s), Plug(c, DeleteRoot(s));
      && Distinct(t') && Bst(t')
      && Refs(t') == Refs(t) - {s.ref}
      && KeySet(t') == KeySet(t) - {s.key}
      && Size(t') == Size(t) - 1
  {
    RemovedHandles(c, s);
    var a, b := RemovedInorder(c, s);
    RemovedOrder(Plug(c, s), Plug(c, DeleteRoot(s)), a, s.key, b);
  }

  lemma RemovedHandles(c: Ctx, s: Tree)
    requires s.Branch? && Distinct(Plug(c, s))
    ensures Distinct(Plug(c, DeleteRoot(s)))
    ensures Refs(Plug(c, DeleteRoot(s))) == Refs(Plug(c, s)) - {s.ref}
  {
    DeleteRootContents(s);
    PlugDistinct(c, s);
    DeleteRootDistinct(s);
    PlugDistinct(c, DeleteRoot(s));
    PlugRefs(c, s);
    PlugRefs(c, DeleteRoot(s));
  }

  lemma RemovedInorder(c: Ctx, s: Tree) returns (a: seq<int>, b: seq<int>)
    requires s.Branch?
    ensures Inorder(Plug(c, s)) == a + [s.key] + b
    ensures Inorder(Plug(c, DeleteRoot(s))) == a + b
  {
    a, b := CtxLeft(c) + Inorder(s.left), Inorder(s.right) + CtxRight(c);
    PlugInorder(c, s);
    PlugInorder(c, DeleteRoot(s));
    DeleteRootContents(s);
    Regroup(CtxLeft(c), Inorder(s.left), s.key, Inorder(s.right), CtxRight(c));
  }

  lemma Regroup(p: seq<int>, l: seq<int>, k: int, r: seq<int>, q: seq<int>)
    ensures p + (l + [k] + r) + q == (p + l) + [k] + (r + q)
    ensures p + (l + r) + q == (p + l) + (r + q)
  {
  }

  lemma RemovedOrder(t: Tree, t': Tree, a: seq<int>, k: int, b: seq<int>)
    requires Inorder(t) == a + [k] + b && Inorder(t') == a + b && Bst(t)
    ensures Bst(t') && KeySet(t') == KeySet(t) - {k} && Size(t') == Size(t) - 1
  {
    SortedDrop(a, k, b);
    DropKeys(a, k, b);
    SizeIsLength(t);
    SizeIsLength(t');
  }

  /** Dropping `k`, which occurs nowhere else, from a sequence drops it from its set of elements. */
  lemma DropKeys(a: seq<int>, k: int, b: seq<int>)
    requires k !in a + b
    ensures (set y | y in a + b) == (set y | y in a + [k] + b) - {k}
  {
    forall y ensures y in a + [k] + b <==> y in a || y == k || y in b {
    }
    forall y ensures y in a + b <==> y in a || y in b {
    }
  }

  /** The rightmost node holds the last key in order. */
  lemma MaxIsLast(t: Tree)
    requires t.Branch?
    ensures var (d, e, m, mk) := SplitMax(t);
      Inorder(t) == CtxLeft(d) + Inorder(e) + [mk]
  {
    var (d, e, m, mk) := SplitMax(t);
    PlugInorder(d, Branch(e, m, mk, Empty));
    RightPathHasNoRightKeys(d);
  }

  /** In a search tree the rightmost node holds the largest key. */
  lemma MaxKey(t: Tree)
    requires t.Branch? && Bst(t)
    ensures var mk := SplitMax(t).3;
      mk in KeySet(t) && forall k | k in KeySet(t) :: k <= mk
  {
    var (d, e, m, mk) := SplitMax(t);
    MaxIsLast(t);
    var s := Inorder(t);
    assert s[|s| - 1] == mk;
    forall k | k in KeySet(t) ensures k <= mk {
      var i :| 0 <= i < |s| && s[i] == k;
    }
  }

  /** In a search tree the leftmost key is the smallest. */
  lemma MinKey(t: Tree)
    requires t.Branch? && Bst(t)
    ensures Inorder(t) != [] && Inorder(t)[0] in KeySet(t)
    ensures forall k | k in KeySet(t) :: Inorder(t)[0] <= k
  {
    var s := Inorder(t);
    forall k | k in KeySet(t) ensures s[0] <= k {
      var i :| 0 <= i < |s| && s[i] == k;
      SortedHeadIsMin(s, i);
    }
  }

  /**
   * The predecessor that replaces a root with two children holds the
   * largest key below the root's key.
   */
  lemma PredecessorKey(s: Tree)
    requires s.Branch? && s.left.Branch? && Bst(s)
    ensures var mk := SplitMax(s.left).3;
      && mk in KeySet(s) && mk < s.key
      && forall k | k in KeySet(s) && k < s.key :: k <= mk
  {
    SortedAround(Inorder(s.left), s.key, Inorder(s.right));
    MaxKey(s.left);
    forall k | k in KeySet(s) && k < s.key ensures k in KeySet(s.left) {
      assert k in Inorder(s.left) + [s.key] + Inorder(s.right);
    }
  }

  /**
   * In case 3b the parent `opp` of the predecessor sits, after the removal,
   * at the hole of the path `d[1..]`, then the predecessor, then `c`.
   */
  lemma OppPath(c: Ctx, s: Tree)
    requires s.Branch? && s.left.Branch? && s.right.Branch? && s.left.right.Branch?
    ensures var (d, e, m, mk) := SplitMax(s.left);
      && d != []
      && var c2 := d[1..] + [LeftHole(m, mk, s.right)] + c;
      && Plug(c2, Fill(d[0], e)) == Plug(c, DeleteRoot(s))
      && PathRefs(c2) == PathRefs(d[1..]) + {m} + PathRefs(c)
      && Fill(d[0], e).ref == d[0].p
  {
    var (d, e, m, mk) := SplitMax(s.left);
    var f := LeftHole(m, mk, s.right);
    PlugAppend(d[1..] + [f], c, Fill(d[0], e));
    PlugAppend(d[1..], [f], Fill(d[0], e));
    assert Plug([f], Plug(d[1..], Fill(d[0], e))) == Branch(Plug(d, e), m, mk, s.right);
    PathRefsAppend(d[1..] + [f], c);
    PathRefsAppend(d[1..], [f]);
    assert PathRefs([f]) == {m};
  }
}
