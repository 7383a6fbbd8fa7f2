/**
 * Binary-search-tree operations on the ghost shape: the place where `_insert`
 * hangs a new leaf, and the facts about keys and order that `_find` and
 * `_insert` rely on.
 */
module Search {
  import opened Shape

  /**
   * The shape after `_insert` of key `k` as the new leaf `m`: the search path
   * for `k` is followed down to an empty subtree, which becomes the leaf. A
   * key already present leaves the shape unchanged.
   */
  function BstInsert(t: Tree, k: int, m: Ref): (r: Tree)
    ensures r.Branch?
  {
    match t
    case Empty => Branch(Empty, m, k, Empty)
    case Branch(l, x, xk, rt) =>
      if k < xk then Branch(BstInsert(l, k, m), x, xk, rt)
      else if k > xk then Branch(l, x, xk, BstInsert(rt, k, m))
      else t
  }

  lemma KeySetBranch(l: Tree, x: Ref, k: int, r: Tree)
    ensures KeySet(Branch(l, x, k, r)) == KeySet(l) + {k} + KeySet(r)
  {
    var s := Inorder(l) + [k] + Inorder(r);
    assert Inorder(Branch(l, x, k, r)) == s;
    forall y ensures y in s <==> y in Inorder(l) || y == k || y in Inorder(r) {
    }
  }

  /** Inserting adds the key and, when the key is absent, the node. */
  lemma {:induction false} BstInsertKeys(t: Tree, k: int, m: Ref)
    ensures KeySet(BstInsert(t, k, m)) == KeySet(t) + {k}
    ensures k !in KeySet(t) ==> Refs(BstInsert(t, k, m)) == Refs(t) + {m}
    ensures k !in KeySet(t) ==> Size(BstInsert(t, k, m)) == Size(t) + 1
    decreases t
  {
    match t
    case Empty =>
      KeySetBranch(Empty, m, k, Empty);
    case Branch(l, x, xk, rt) =>
      KeySetBranch(l, x, xk, rt);
      if k < xk {
        BstInsertKeys(l, k, m);
        KeySetBranch(BstInsert(l, k, m), x, xk, rt);
      } else if k > xk {
        BstInsertKeys(rt, k, m);
        KeySetBranch(l, x, xk, BstInsert(rt, k, m));
      }
  }

  /** Inserting an absent key into a search tree gives a search tree. */
  lemma {:induction false} BstInsertSorted(t: Tree, k: int, m: Ref)
    requires Bst(t) && k !in KeySet(t)
    ensures Bst(BstInsert(t, k, m))
    decreases t
  {
    match t
    case Empty =>
      assert Inorder(BstInsert(t, k, m)) == [k];
    case Branch(l, x, xk, rt) =>
      SortedAround(Inorder(l), xk, Inorder(rt));
      KeySetBranch(l, x, xk, rt);
      if k < xk {
        BstInsertSorted(l, k, m);
        BstInsertKeys(l, k, m);
        InsertLeftOrder(l, x, xk, rt, k, m);
      } else {
        BstInsertSorted(rt, k, m);
        BstInsertKeys(rt, k, m);
        InsertRightOrder(l, x, xk, rt, k, m);
      }
  }

  /** Inserting as a node not yet in the tree keeps the nodes distinct. */
  lemma {:induction false} BstInsertDistinct(t: Tree, k: int, m: Ref)
    requires Distinct(t) && m !in Refs(t)
    ensures Distinct(BstInsert(t, k, m))
    ensures Refs(BstInsert(t, k, m)) <= Refs(t) + {m}
    decreases t
  {
    match t
    case Empty =>
    case Branch(l, x, xk, rt) =>
      if k < xk {
        BstInsertDistinct(l, k, m);
      } else if k > xk {
        BstInsertDistinct(rt, k, m);
      }
  }

  lemma InsertLeftOrder(l: Tree, x: Ref, xk: int, rt: Tree, k: int, m: Ref)
    requires StrictlySorted(Inorder(l) + [xk] + Inorder(rt)) && k < xk
    requires Bst(BstInsert(l, k, m)) && KeySet(BstInsert(l, k, m)) == KeySet(l) + {k}
    ensures Bst(Branch(BstInsert(l, k, m), x, xk, rt))
  {
    var l' := BstInsert(l, k, m);
    SortedAround(Inorder(l), xk, Inorder(rt));
    forall y | y in Inorder(l') ensures y < xk {
      assert y in KeySet(l');
      if y != k { assert y in Inorder(l); }
    }
    SortedAround(Inorder(l'), xk, Inorder(rt));
  }

  lemma InsertRightOrder(l: Tree, x: Ref, xk: int, rt: Tree, k: int, m: Ref)
    requires StrictlySorted(Inorder(l) + [xk] + Inorder(rt)) && k > xk
    requires Bst(BstInsert(rt, k, m)) && KeySet(BstInsert(rt, k, m)) == KeySet(rt) + {k}
    ensures Bst(Branch(l, x, xk, BstInsert(rt, k, m)))
  {
    var r' := BstInsert(rt, k, m);
    SortedAround(Inorder(l), xk, Inorder(rt));
    forall y | y in Inorder(r') ensures xk < y {
      assert y in KeySet(r');
      if y != k { assert y in Inorder(rt); }
    }
    SortedAround(Inorder(l), xk, Inorder(r'));
  }

  /**
   * In a search tree both subtrees are search trees, and `k` is in the tree
   * iff it is the root key, or below it and in the left subtree, or above it
   * and in the right subtree.
   */
  lemma SearchSide(t: Tree, k: int)
    requires Bst(t) && t.Branch?
    ensures Bst(t.left) && Bst(t.right)
    ensures k in KeySet(t) <==> k == t.key || (k < t.key && k in KeySet(t.left)) || (k > t.key && k in KeySet(t.right))
  {
    SortedAround(Inorder(t.left), t.key, Inorder(t.right));
    KeySetBranch(t.left, t.ref, t.key, t.right);
    if k in KeySet(t.left) {
      assert k in Inorder(t.left);
    }
    if k in KeySet(t.right) {
      assert k in Inorder(t.right);
    }
  }
}
