/**
 * The invariant checkers of the test suite: a node count and three
 * per-node tests (child/parent symmetry, local search order, subtree size),
 * applied to every node of a tree by `allNodesSatisfy`. Each recursive
 * walk over the arena carries the subtree it walks as a ghost argument,
 * which is what makes it terminate.
 */
module TestUtils {
  import opened Shape
  import opened Nodes

  /** `countNodes(n)`: the number of nodes below and including `n`, the root of `t`. */
  function CountNodes(h: Heap, n: Link, ghost t: Tree): (r: nat)
    requires Hangs(t, h) && n == RootLink(t)
    ensures r == Size(t)
    ensures r == 0 <==> n == Null
    decreases t
  {
    if n == Null then 0
    else
      HangsChildren(t, h);
      1 + CountNodes(h, h[n.ref].left, t.left) + CountNodes(h, h[n.ref].right, t.right)
  }

  /** The node, its parent and its children are all allocated. */
  predicate Around(h: Heap, x: Ref)
  {
    && x in h
    && (h[x].parent.Ptr? ==> h[x].parent.ref in h)
    && (h[x].left.Ptr? ==> h[x].left.ref in h)
    && (h[x].right.Ptr? ==> h[x].right.ref in h)
  }

  /** The root of a linked subtree has its parent and children allocated. */
  lemma LinkedAround(t: Tree, par: Link, h: Heap)
    requires Linked(t, par, h) && (par.Ptr? ==> par.ref in h) && t.Branch?
    ensures Around(h, t.ref)
  {
    assert Linked(t.left, Ptr(t.ref), h) && Linked(t.right, Ptr(t.ref), h);
  }

  /**
   * `ChildParentPredicate::testNode`: a left (right) child is its parent's
   * left (right) child, and each present child names the node as parent.
   * Null passes.
   */
  function ChildParentTest(h: Heap, n: Link): bool
    requires n.Ptr? ==> Around(h, n.ref)
  {
    if n == Null then true
    else
      var x := n.ref;
      var parentOk :=
        !HasParent(h, x) ||
        ((!IsLeftChild(h, x) || h[h[x].parent.ref].left == n) &&
         (!IsRightChild(h, x) || h[h[x].parent.ref].right == n));
      var leftOk := !HasLeftChild(h, x) || h[h[x].left.ref].parent == n;
      var rightOk := !HasRightChild(h, x) || h[h[x].right.ref].parent == n;
      parentOk && leftOk && rightOk
  }

  /** `BSTNodePredicate::testNode`: a present left child has a smaller key, a present right child a larger one. */
  function BstNodeTest(h: Heap, x: Ref): bool
    requires Around(h, x)
  {
    (!HasLeftChild(h, x) || h[h[x].left.ref].key < h[x].key) &&
    (!HasRightChild(h, x) || h[h[x].right.ref].key > h[x].key)
  }

  /** `SubtreeSizePredicate::testNode`: the size field equals the counted nodes of the subtree `t` rooted at `x`. */
  function SubtreeSizeTest(h: Heap, x: Ref, ghost t: Tree): bool
    requires Hangs(t, h) && t.Branch? && x == t.ref
  {
    h[x].size == CountNodes(h, Ptr(x), t)
  }

  /** The three node predicates of the test suite. */
  datatype NodeTest = ChildParent | BstNode | SubtreeSize

  /** `testNode` on `x`, the root of the subtree `t`, which hangs below `par`. */
  function TestNode(p: NodeTest, h: Heap, x: Ref, ghost t: Tree, ghost par: Link): bool
    requires Linked(t, par, h) && (par.Ptr? ==> par.ref in h) && t.Branch? && x == t.ref
  {
    LinkedAround(t, par, h);
    match p
    case ChildParent => ChildParentTest(h, Ptr(x))
    case BstNode => BstNodeTest(h, x)
    case SubtreeSize => SubtreeSizeTest(h, x, t)
  }

  /**
   * `_allNodesSatisfy(pr, n)` for `n`, the root of the subtree `t` hanging
   * below `par`: true on an empty subtree, otherwise the test at `n` and
   * in both subtrees.
   */
  function AllNodesSatisfy(p: NodeTest, h: Heap, n: Link, ghost t: Tree, ghost par: Link): bool
    requires Linked(t, par, h) && (par.Ptr? ==> par.ref in h) && n == RootLink(t)
    decreases t
  {
    if n == Null then true
    else
      TestNode(p, h, n.ref, t, par)
      && AllNodesSatisfy(p, h, h[n.ref].left, t.left, n)
      && AllNodesSatisfy(p, h, h[n.ref].right, t.right, n)
  }

  /** Linked nodes pass the child/parent test everywhere. */
  lemma {:induction false} ChildParentPasses(t: Tree, par: Link, h: Heap)
    requires Linked(t, par, h) && (par.Ptr? ==> par.ref in h)
    ensures AllNodesSatisfy(ChildParent, h, RootLink(t), t, par)
    decreases t
  {
    if t.Branch? {
      ChildParentPasses(t.left, Ptr(t.ref), h);
      ChildParentPasses(t.right, Ptr(t.ref), h);
    }
  }

  /** A search tree passes the local order test everywhere. */
  lemma {:induction false} BstNodePasses(t: Tree, par: Link, h: Heap)
    requires Linked(t, par, h) && (par.Ptr? ==> par.ref in h) && Bst(t)
    ensures AllNodesSatisfy(BstNode, h, RootLink(t), t, par)
    decreases t
  {
    if t.Branch? {
      SortedAround(Inorder(t.left), t.key, Inorder(t.right));
      if t.left.Branch? {
        assert t.left.key in Inorder(t.left);
      }
      if t.right.Branch? {
        assert t.right.key in Inorder(t.right);
      }
      BstNodePasses(t.left, Ptr(t.ref), h);
      BstNodePasses(t.right, Ptr(t.ref), h);
    }
  }

  /**
   * The subtree size test passes everywhere exactly when every node obeys
   * `size = 1 + size(left) + size(right)`.
   */
  lemma {:induction false} SubtreeSizeExact(t: Tree, par: Link, h: Heap)
    requires Linked(t, par, h) && (par.Ptr? ==> par.ref in h)
    ensures AllNodesSatisfy(SubtreeSize, h, RootLink(t), t, par) <==> SizesOk(t, h, {})
    decreases t
  {
    if t.Branch? {
      var x := t.ref;
      SubtreeSizeExact(t.left, Ptr(x), h);
      SubtreeSizeExact(t.right, Ptr(x), h);
      if SizesOk(t, h, {}) {
        SizeIsCount(t, par, h);
        assert SizesOk(t.left, h, {}) && SizesOk(t.right, h, {});
      }
      if AllNodesSatisfy(SubtreeSize, h, RootLink(t), t, par) {
        RootSizeCounted(t.left, Ptr(x), h);
        RootSizeCounted(t.right, Ptr(x), h);
        assert SizeOkAt(h, x);
      }
    }
  }

  /** Where the size test passes at the root, the root's size is the subtree's node count. */
  lemma RootSizeCounted(t: Tree, par: Link, h: Heap)
    requires Linked(t, par, h) && (par.Ptr? ==> par.ref in h)
    requires AllNodesSatisfy(SubtreeSize, h, RootLink(t), t, par)
    ensures SizeOf(h, RootLink(t)) == Size(t)
  {
  }
}
