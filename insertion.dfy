/**
 * The arena side of `_insert`: what holds of the subtree it descends into,
 * and what holds after each level has hung the grown child back and
 * recomputed its own size.
 */
module Insertion {
  import opened Shape
  import opened Nodes
  import opened Search

  /**
   * `_insert` may descend into `t`, which hangs below `par`: its nodes are
   * linked and distinct, their sizes are right, `k` is not among its keys
   * and `m` is not yet allocated.
   */
  ghost predicate InsertableAt(t: Tree, par: Link, k: int, m: Ref, h: Heap)
  {
    Sized(t, par, h) && k !in KeySet(t) && m !in h
  }

  /** `t` hangs below `par` over distinct nodes whose sizes are right. */
  ghost predicate Sized(t: Tree, par: Link, h: Heap)
  {
    Linked(t, par, h) && Distinct(t) && SizesOk(t, h, {})
  }

  /**
   * After `_insert` into `t` the arena `h'` encodes `t` with `k` inserted as
   * the new node `m`, whose sizes are right; a new leaf has no parent yet,
   * and every node outside `t` is as it was in `h`.
   */
  ghost predicate Inserted(t: Tree, par: Link, k: int, m: Ref, h: Heap, h': Heap)
  {
    && Sized(BstInsert(t, k, m), if t.Empty? then Null else par, h')
    && h'.Keys == h.Keys + {m} && h'[m].key == k
    && KeptOutside(h, h', Refs(t))
  }

  /** The new leaf is inserted. */
  lemma InsertedLeaf(par: Link, k: int, m: Ref, h: Heap)
    requires m !in h
    ensures Inserted(Empty, par, k, m, h, h[m := NewNode(k)])
  {
    var h' := h[m := NewNode(k)];
    assert BstInsert(Empty, k, m) == Branch(Empty, m, k, Empty);
    assert Refs(Branch(Empty, m, k, Empty)) == {m};
    assert SizeOkAt(h', m);
    assert Linked(BstInsert(Empty, k, m), Null, h');
    assert SizesOk(BstInsert(Empty, k, m), h', {});
    assert h'.Keys == h.Keys + {m} && h'[m].key == k;
    assert forall q | q in h && q !in Refs(Empty) :: h'[q] == h[q];
  }

  /** Below a node, `_insert` descends to the side of `k`, which is never the node's own key. */
  lemma InsertDescend(t: Tree, par: Link, k: int, m: Ref, h: Heap)
    requires InsertableAt(t, par, k, m, h) && t.Branch?
    ensures k != t.key && t.ref in h && h[t.ref].key == t.key && Refs(t) <= h.Keys
    ensures h[t.ref].left == RootLink(t.left) && h[t.ref].right == RootLink(t.right)
    ensures t.ref !in Refs(t.left) && t.ref !in Refs(t.right)
    ensures k < t.key ==> InsertableAt(t.left, Ptr(t.ref), k, m, h)
    ensures k > t.key ==> InsertableAt(t.right, Ptr(t.ref), k, m, h)
  {
    KeySetBranch(t.left, t.ref, t.key, t.right);
    LinkedInHeap(t, par, h);
  }

  /** The nodes of `A` keep their sizes and child links from `h` to `h'`. */
  ghost predicate SameSizes(h: Heap, h': Heap, A: set<Ref>)
  {
    forall q | q in A :: q in h && q in h' && h'[q].size == h[q].size && h'[q].left == h[q].left && h'[q].right == h[q].right
  }

  /**
   * `setLeftChild(x, y)` (or `setRightChild`) followed by recomputing the
   * size of `x` changes only the hanging slot of `x`, its size and the
   * parent of `y`.
   */
  lemma Hung(h1: Heap, x: Ref, y: Ref, onLeft: bool, h': Heap)
    requires x in h1 && y in h1 && x != y
    requires h' == Resized(if onLeft then WithLeft(h1, x, Ptr(y)) else WithRight(h1, x, Ptr(y)), x)
    ensures h'.Keys == h1.Keys
    ensures h'[x].key == h1[x].key && h'[x].parent == h1[x].parent
    ensures onLeft ==> h'[x].left == Ptr(y) && h'[x].right == h1[x].right
    ensures !onLeft ==> h'[x].right == Ptr(y) && h'[x].left == h1[x].left
    ensures h'[y] == h1[y].(parent := Ptr(x))
    ensures forall q | q in h1 && q != x && q != y :: h'[q] == h1[q]
    ensures (if onLeft then h1[x].right else h1[x].left) != Ptr(x) ==> SizeOkAt(h', x)
  {
  }

  /** Away from `x`, the same step keeps every size and child link, and every link but `y`'s parent. */
  lemma HungOff(h1: Heap, x: Ref, y: Ref, onLeft: bool, h': Heap, A: set<Ref>)
    requires x in h1 && y in h1 && x != y && x !in A && A <= h1.Keys
    requires h' == Resized(if onLeft then WithLeft(h1, x, Ptr(y)) else WithRight(h1, x, Ptr(y)), x)
    ensures SameSizes(h1, h', A)
    ensures y !in A ==> SameLinks(h1, h', A)
    ensures SameLinks(h1, h', A - {y})
  {
    Hung(h1, x, y, onLeft, h');
  }

  /** Nodes outside the part `A` that changed first keep what the second step keeps. */
  lemma KeptThen(h: Heap, h1: Heap, h': Heap, A: set<Ref>, B: set<Ref>)
    requires KeptOutside(h, h1, A) && A !! B && B <= h.Keys
    requires SameSizes(h1, h', B) && SameLinks(h1, h', B)
    ensures SameSizes(h, h', B) && SameLinks(h, h', B)
  {
  }

  /**
   * Hanging the grown subtree back on the side `k` went to and recomputing
   * the node's size completes the insertion into `t`.
   */
  lemma InsertedBelow(t: Tree, par: Link, k: int, m: Ref, h: Heap, h1: Heap, h': Heap)
    requires InsertableAt(t, par, k, m, h) && t.Branch? && k != t.key
    requires Inserted(if k < t.key then t.left else t.right, Ptr(t.ref), k, m, h, h1)
    requires k < t.key ==> h' == Resized(WithLeft(h1, t.ref, Ptr(BstInsert(t.left, k, m).ref)), t.ref)
    requires k > t.key ==> h' == Resized(WithRight(h1, t.ref, Ptr(BstInsert(t.right, k, m).ref)), t.ref)
    ensures Inserted(t, par, k, m, h, h')
  {
    if k < t.key {
      InsertedLeft(t, par, k, m, h, h1, h');
    } else {
      InsertedRight(t, par, k, m, h, h1, h');
    }
  }

  /**
   * Hanging the grown left subtree back with `setLeftChild` and recomputing
   * the node's size completes the insertion into `t`.
   */
  lemma InsertedLeft(t: Tree, par: Link, k: int, m: Ref, h: Heap, h1: Heap, h': Heap)
    requires InsertableAt(t, par, k, m, h) && t.Branch? && k < t.key
    requires Inserted(t.left, Ptr(t.ref), k, m, h, h1)
    requires h' == Resized(WithLeft(h1, t.ref, Ptr(BstInsert(t.left, k, m).ref)), t.ref)
    ensures Inserted(t, par, k, m, h, h')
  {
    var x, tl := t.ref, BstInsert(t.left, k, m);
    var ptl := if t.left.Empty? then Null else Ptr(x);
    LinkedInHeap(t, par, h);
    LinkedInHeap(tl, ptl, h1);
    BstInsertKeys(t.left, k, m);
    BstInsertDistinct(t.left, k, m);
    assert x !in Refs(tl) && tl.ref !in Refs(t.right);
    Hung(h1, x, tl.ref, true, h');
    HungOff(h1, x, tl.ref, true, h', Refs(tl));
    HungOff(h1, x, tl.ref, true, h', Refs(t.right));
    KeptThen(h, h1, h', Refs(t.left), Refs(t.right));
    Reparent(tl, ptl, Ptr(x), h1, h');
    LinkedFrame(t.right, Ptr(x), h, h');
    SizesKept(tl, ptl, h1, h');
    SizesKept(t.right, Ptr(x), h, h');
  }

  /** The mirror image of `InsertedLeft`, with `setRightChild`. */
  lemma InsertedRight(t: Tree, par: Link, k: int, m: Ref, h: Heap, h1: Heap, h': Heap)
    requires InsertableAt(t, par, k, m, h) && t.Branch? && k > t.key
    requires Inserted(t.right, Ptr(t.ref), k, m, h, h1)
    requires h' == Resized(WithRight(h1, t.ref, Ptr(BstInsert(t.right, k, m).ref)), t.ref)
    ensures Inserted(t, par, k, m, h, h')
  {
    var x, tr := t.ref, BstInsert(t.right, k, m);
    var ptr := if t.right.Empty? then Null else Ptr(x);
    LinkedInHeap(t, par, h);
    LinkedInHeap(tr, ptr, h1);
    BstInsertKeys(t.right, k, m);
    BstInsertDistinct(t.right, k, m);
    assert x !in Refs(tr) && tr.ref !in Refs(t.left);
    Hung(h1, x, tr.ref, false, h');
    HungOff(h1, x, tr.ref, false, h', Refs(tr));
    HungOff(h1, x, tr.ref, false, h', Refs(t.left));
    KeptThen(h, h1, h', Refs(t.right), Refs(t.left));
    Reparent(tr, ptr, Ptr(x), h1, h');
    LinkedFrame(t.left, Ptr(x), h, h');
    SizesKept(tr, ptr, h1, h');
    SizesKept(t.left, Ptr(x), h, h');
  }

  /**
   * `insert` starts `_insert` at the root of a tree the arena encodes
   * exactly, with an absent key and the next unused handle.
   */
  lemma InsertReady(t: Tree, k: int, m: Ref, h: Heap)
    requires Encodes(t, h) && SizesOk(t, h, {}) && k !in KeySet(t) && m !in h
    ensures InsertableAt(t, Null, k, m, h)
  {
  }

  /**
   * After `_insert` at the root, the arena encodes the grown search tree
   * exactly, its sizes are right, its root is already parentless, and the
   * new node holds `k`.
   */
  lemma InsertedRoot(t: Tree, k: int, m: Ref, h: Heap, h1: Heap)
    requires Encodes(t, h) && h.Keys == Refs(t) && k !in KeySet(t) && m !in h
    requires Inserted(t, Null, k, m, h, h1)
    ensures var t' := BstInsert(t, k, m);
      && Encodes(t', h1) && SizesOk(t', h1, {})
      && h1.Keys == Refs(t') == Refs(t) + {m}
      && KeySet(t') == KeySet(t) + {k}
      && m in Refs(t') && h1[m].key == k
      && h1[t'.ref := h1[t'.ref].(parent := Null)] == h1
  {
    var t' := BstInsert(t, k, m);
    BstInsertKeys(t, k, m);
    BstInsertSorted(t, k, m);
    BstInsertDistinct(t, k, m);
    assert h1[t'.ref].parent == Null;
  }

  /** Sizes stay right in a subtree whose nodes keep their sizes and child links. */
  lemma SizesKept(t: Tree, par: Link, h: Heap, h': Heap)
    requires Linked(t, par, h) && SizesOk(t, h, {})
    requires SameSizes(h, h', Refs(t))
    ensures SizesOk(t, h', {})
  {
    forall r | r in Refs(t) ensures SizeOkAt(h', r) {
      ChildLinksBack(t, par, h, r);
    }
  }
}
