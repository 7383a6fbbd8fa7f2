/**
 * Nodes of the splay tree (`STNode`) kept in an arena: a map from handles to
 * node records whose `left`, `right` and `parent` links are handles or Null.
 * `Linked(t, par, h)` says that the arena `h` holds exactly the links of the
 * ghost shape `t`, whose root hangs below `par`.
 */
module Nodes {
  import opened Shape
  import PolyHash

  /** A node pointer: Null or the handle of a node. */
  datatype Link = Null | Ptr(ref: Ref)

  /** The fields of one `STNode`. */
  datatype Node = Node(key: int, left: Link, right: Link, parent: Link, size: int, hash: int)

  type Heap = map<Ref, Node>

  /** The `STNode(k)` constructor: a detached leaf. */
  function NewNode(k: int): (n: Node)
    ensures n.key == k && n.left == Null && n.right == Null && n.parent == Null
    ensures n.size == Size(Branch(Empty, 0, k, Empty))
    ensures n.hash == PolyHash.HashOf([k])
  {
    PolyHash.LeafHash(k);
    Node(k, Null, Null, Null, 1, k % PolyHash.M)
  }

  function RootLink(t: Tree): (l: Link)
    ensures l == Null <==> t.Empty?
  {
    if t.Empty? then Null else Ptr(t.ref)
  }

  function LinkSet(l: Link): set<Ref>
  {
    if l.Null? then {} else {l.ref}
  }

  /** The arena holds the key and the three links of every node of `t`. */
  ghost predicate Linked(t: Tree, par: Link, h: Heap)
  {
    match t
    case Empty => true
    case Branch(l, x, k, r) =>
      && x in h && h[x].key == k && h[x].parent == par
      && h[x].left == RootLink(l) && h[x].right == RootLink(r)
      && Linked(l, Ptr(x), h) && Linked(r, Ptr(x), h)
  }

  /** The arena `h` encodes the binary search tree `t` over distinct nodes. */
  ghost predicate Encodes(t: Tree, h: Heap)
  {
    Linked(t, Null, h) && Distinct(t) && Bst(t) && Refs(t) <= h.Keys
  }

  /** The arena encodes `t`, and every allocated handle is below `next`. */
  ghost predicate Arena(t: Tree, h: Heap, next: Ref)
  {
    Encodes(t, h) && forall r | r in h :: r < next
  }

  /** The parent link of the hole of path `c`, when the whole tree hangs below `top`. */
  function Up(c: Ctx, top: Link): Link
  {
    if c == [] then top else Ptr(c[0].p)
  }

  ghost predicate FrameLinked(f: Frame, hole: Link, par: Link, h: Heap)
  {
    && f.p in h && h[f.p].key == f.pkey && h[f.p].parent == par
    && Linked(f.sibling, Ptr(f.p), h)
    && match f
       case LeftHole(p, _, r) => h[p].left == hole && h[p].right == RootLink(r)
       case RightHole(l, p, _) => h[p].left == RootLink(l) && h[p].right == hole
  }

  /** The arena holds the links of the path `c`, whose hole holds the node `hole`. */
  ghost predicate CtxLinked(c: Ctx, hole: Link, top: Link, h: Heap)
    decreases |c|
  {
    c == [] || (FrameLinked(c[0], hole, Up(c[1..], top), h) && CtxLinked(c[1..], Ptr(c[0].p), top, h))
  }

  lemma {:induction false} LinkedPlug(c: Ctx, s: Tree, top: Link, h: Heap)
    ensures Linked(Plug(c, s), top, h) <==> Linked(s, Up(c, top), h) && CtxLinked(c, RootLink(s), top, h)
    decreases |c|
  {
    if c != [] {
      LinkedPlug(c[1..], Fill(c[0], s), top, h);
    }
  }

  /** A node linked between its two subtrees and the path above it links the whole tree. */
  lemma JoinLinked(c: Ctx, l: Tree, m: Ref, k: int, r: Tree, h: Heap)
    requires m in h && h[m].key == k && h[m].parent == Up(c, Null)
    requires h[m].left == RootLink(l) && h[m].right == RootLink(r)
    requires Linked(l, Ptr(m), h) && Linked(r, Ptr(m), h) && CtxLinked(c, Ptr(m), Null, h)
    ensures Linked(Plug(c, Branch(l, m, k, r)), Null, h)
  {
    LinkedPlug(c, Branch(l, m, k, r), Null, h);
  }

  /**
   * `n.setLeftChild(m)`: `m` becomes the left child of `n` and, when not
   * Null, records `n` as its parent; nothing else changes.
   */
  function WithLeft(h: Heap, n: Ref, m: Link): (h': Heap)
    requires n in h && (m.Ptr? ==> m.ref in h)
    ensures h'.Keys == h.Keys
    ensures h'[n].left == m && (m.Ptr? ==> h'[m.ref].parent == Ptr(n))
    ensures forall q | q in h && q != n && Ptr(q) != m :: h'[q] == h[q]
    ensures h'[n] == h[n].(left := m) || (m == Ptr(n) && h'[n] == h[n].(left := m, parent := Ptr(n)))
    ensures m.Ptr? && m.ref != n ==> h'[m.ref] == h[m.ref].(parent := Ptr(n))
  {
    var h1 := h[n := h[n].(left := m)];
    if m.Ptr? then h1[m.ref := h1[m.ref].(parent := Ptr(n))] else h1
  }

  /** `n.setRightChild(m)`, the mirror image of `WithLeft`. */
  function WithRight(h: Heap, n: Ref, m: Link): (h': Heap)
    requires n in h && (m.Ptr? ==> m.ref in h)
    ensures h'.Keys == h.Keys
    ensures h'[n].right == m && (m.Ptr? ==> h'[m.ref].parent == Ptr(n))
    ensures forall q | q in h && q != n && Ptr(q) != m :: h'[q] == h[q]
    ensures h'[n] == h[n].(right := m) || (m == Ptr(n) && h'[n] == h[n].(right := m, parent := Ptr(n)))
    ensures m.Ptr? && m.ref != n ==> h'[m.ref] == h[m.ref].(parent := Ptr(n))
  {
    var h1 := h[n := h[n].(right := m)];
    if m.Ptr? then h1[m.ref := h1[m.ref].(parent := Ptr(n))] else h1
  }

  /** `t` is linked below whatever parent its root records. */
  ghost predicate Hangs(t: Tree, h: Heap)
  {
    t.Empty? || (t.ref in h && Linked(t, h[t.ref].parent, h))
  }

  /** Every subtree of an encoded tree hangs from its recorded parent. */
  lemma SubtreeHangs(c: Ctx, s: Tree, h: Heap)
    requires Linked(Plug(c, s), Null, h)
    ensures Hangs(s, h)
  {
    LinkedPlug(c, s, Null, h);
  }

  /** The subtrees of a hanging tree hang from its root. */
  lemma HangsChildren(t: Tree, h: Heap)
    requires Hangs(t, h) && t.Branch?
    ensures Hangs(t.left, h) && Hangs(t.right, h)
  {
    assert Linked(t.left, Ptr(t.ref), h) && Linked(t.right, Ptr(t.ref), h);
    if t.left.Branch? {
      assert h[t.left.ref].parent == Ptr(t.ref);
    }
    if t.right.Branch? {
      assert h[t.right.ref].parent == Ptr(t.ref);
    }
  }

  /** The fields that shape and links depend on (everything except size and hash). */
  function LinksOf(n: Node): (int, Link, Link, Link)
  {
    (n.key, n.left, n.right, n.parent)
  }

  ghost predicate SameLinks(h: Heap, h': Heap, A: set<Ref>)
  {
    forall r | r in A && r in h :: r in h' && LinksOf(h'[r]) == LinksOf(h[r])
  }

  /**
   * Every node of `h` that is still allocated in `h'` keeps its hash field:
   * no operation of the tree writes `hash` after the node is constructed.
   */
  ghost predicate HashesKept(h: Heap, h': Heap)
  {
    forall q | q in h && q in h' :: h'[q].hash == h[q].hash
  }

  /** Every allocated node outside `A` is as it was. */
  ghost predicate KeptOutside(h: Heap, h': Heap, A: set<Ref>)
  {
    forall q | q in h && q !in A :: q in h' && h'[q] == h[q]
  }

  /** Outside `A` a node that is kept has the same links. */
  lemma KeptLinks(h: Heap, h': Heap, A: set<Ref>, B: set<Ref>)
    requires KeptOutside(h, h', A) && A !! B
    ensures SameLinks(h, h', B)
  {
  }

  lemma {:induction false} LinkedFrame(t: Tree, par: Link, h: Heap, h': Heap)
    requires Linked(t, par, h) && SameLinks(h, h', Refs(t))
    ensures Linked(t, par, h')
  {
    if t.Branch? {
      LinkedFrame(t.left, Ptr(t.ref), h, h');
      LinkedFrame(t.right, Ptr(t.ref), h, h');
    }
  }

  lemma {:induction false} CtxLinkedFrame(c: Ctx, hole: Link, top: Link, h: Heap, h': Heap)
    requires CtxLinked(c, hole, top, h) && SameLinks(h, h', CtxRefs(c))
    ensures CtxLinked(c, hole, top, h')
    decreases |c|
  {
    if c != [] {
      LinkedFrame(c[0].sibling, Ptr(c[0].p), h, h');
      CtxLinkedFrame(c[1..], Ptr(c[0].p), top, h, h');
    }
  }

  /** Only the root's parent link changed: the subtree now hangs below `par'`. */
  lemma Reparent(t: Tree, par: Link, par': Link, h: Heap, h': Heap)
    requires Linked(t, par, h) && Distinct(t)
    requires t.Branch? ==> SameLinks(h, h', Refs(t) - {t.ref})
    requires t.Branch? ==> t.ref in h' && h'[t.ref].key == h[t.ref].key && h'[t.ref].parent == par'
    requires t.Branch? ==> h'[t.ref].left == h[t.ref].left && h'[t.ref].right == h[t.ref].right
    ensures Linked(t, par', h')
  {
    if t.Branch? {
      LinkedFrame(t.left, Ptr(t.ref), h, h');
      LinkedFrame(t.right, Ptr(t.ref), h, h');
    }
  }

  /** Only the link of the innermost frame towards its hole changed, to `hole'`. */
  lemma Rehole(c: Ctx, hole: Link, hole': Link, top: Link, h: Heap, h': Heap)
    requires CtxLinked(c, hole, top, h) && CtxDistinct(c)
    requires c != [] ==> SameLinks(h, h', CtxRefs(c) - {c[0].p})
    requires c != [] ==> c[0].p in h' && h'[c[0].p].key == h[c[0].p].key && h'[c[0].p].parent == h[c[0].p].parent
    requires c != [] && c[0].LeftHole? ==> h'[c[0].p].left == hole' && h'[c[0].p].right == h[c[0].p].right
    requires c != [] && c[0].RightHole? ==> h'[c[0].p].right == hole' && h'[c[0].p].left == h[c[0].p].left
    ensures CtxLinked(c, hole', top, h')
  {
    if c != [] {
      LinkedFrame(c[0].sibling, Ptr(c[0].p), h, h');
      CtxLinkedFrame(c[1..], Ptr(c[0].p), top, h, h');
    }
  }

  lemma {:induction false} LinkedInHeap(t: Tree, par: Link, h: Heap)
    requires Linked(t, par, h)
    ensures Refs(t) <= h.Keys
  {
    if t.Branch? {
      LinkedInHeap(t.left, Ptr(t.ref), h);
      LinkedInHeap(t.right, Ptr(t.ref), h);
    }
  }

  lemma {:induction false} CtxLinkedInHeap(c: Ctx, hole: Link, top: Link, h: Heap)
    requires CtxLinked(c, hole, top, h)
    ensures CtxRefs(c) <= h.Keys
    decreases |c|
  {
    if c != [] {
      LinkedInHeap(c[0].sibling, Ptr(c[0].p), h);
      CtxLinkedInHeap(c[1..], Ptr(c[0].p), top, h);
    }
  }

  lemma {:induction false} OutermostRef(c: Ctx)
    requires c != []
    ensures c[|c| - 1].p in CtxRefs(c)
    ensures |c| > 1 ==> c[|c| - 1].p in CtxRefs(c[1..])
    decreases |c|
  {
    if |c| > 1 {
      assert c[1..][|c[1..]| - 1] == c[|c| - 1];
      OutermostRef(c[1..]);
    }
  }

  /** Only the parent link of the outermost frame's node changed, to `top'`. */
  lemma {:induction false} Retop(c: Ctx, hole: Link, top: Link, top': Link, h: Heap, h': Heap)
    requires CtxLinked(c, hole, top, h) && CtxDistinct(c) && c != []
    requires SameLinks(h, h', CtxRefs(c) - {c[|c| - 1].p})
    requires c[|c| - 1].p in h && c[|c| - 1].p in h'
    requires LinksOf(h'[c[|c| - 1].p]) == LinksOf(h[c[|c| - 1].p].(parent := top'))
    ensures CtxLinked(c, hole, top', h')
    decreases |c|
  {
    OutermostRef(c);
    LinkedFrame(c[0].sibling, Ptr(c[0].p), h, h');
    if |c| > 1 {
      assert c[1..][|c[1..]| - 1] == c[|c| - 1];
      Retop(c[1..], Ptr(c[0].p), top, top', h, h');
    }
  }

  /** Parent/child symmetry of a linked shape, seen from a node's child links. */
  lemma {:induction false} ChildLinksBack(t: Tree, par: Link, h: Heap, r: Ref)
    requires Linked(t, par, h) && r in Refs(t)
    ensures Refs(t) <= h.Keys
    ensures h[r].left.Ptr? ==> h[r].left.ref in Refs(t) && h[h[r].left.ref].parent == Ptr(r)
    ensures h[r].right.Ptr? ==> h[r].right.ref in Refs(t) && h[h[r].right.ref].parent == Ptr(r)
  {
    LinkedInHeap(t, par, h);
    if r != t.ref {
      if r in Refs(t.left) {
        ChildLinksBack(t.left, Ptr(t.ref), h, r);
      } else {
        ChildLinksBack(t.right, Ptr(t.ref), h, r);
      }
    }
  }

  /** Parent/child symmetry of a linked shape, seen from a node's parent link. */
  lemma {:induction false} ParentLinksDown(t: Tree, par: Link, h: Heap, r: Ref)
    requires Linked(t, par, h) && r in Refs(t)
    ensures Refs(t) <= h.Keys
    ensures r == t.ref ==> h[r].parent == par
    ensures r != t.ref ==>
      && h[r].parent.Ptr? && h[r].parent.ref in Refs(t)
      && (h[h[r].parent.ref].left == Ptr(r) || h[h[r].parent.ref].right == Ptr(r))
  {
    LinkedInHeap(t, par, h);
    if r != t.ref {
      if r in Refs(t.left) {
        ParentLinksDown(t.left, Ptr(t.ref), h, r);
      } else {
        ParentLinksDown(t.right, Ptr(t.ref), h, r);
      }
    }
  }

  /** `size = 1 + size(left) + size(right)`, an absent child counting 0. */
  function SizeOf(h: Heap, l: Link): int
  {
    if l.Ptr? && l.ref in h then h[l.ref].size else 0
  }

  ghost predicate SizeOkAt(h: Heap, r: Ref)
  {
    r in h ==> h[r].size == 1 + SizeOf(h, h[r].left) + SizeOf(h, h[r].right)
  }

  /** `n.updateSizeFromChildren()`: the size of `n` recomputed from its children's. */
  function Resized(h: Heap, n: Ref): (h': Heap)
    requires n in h
    ensures h'.Keys == h.Keys && LinksOf(h'[n]) == LinksOf(h[n])
    ensures forall q | q in h && q != n :: h'[q] == h[q]
    ensures h[n].left != Ptr(n) && h[n].right != Ptr(n) ==> SizeOkAt(h', n)
  {
    h[n := h[n].(size := 1 + SizeOf(h, h[n].left) + SizeOf(h, h[n].right))]
  }

  /** Every node of `t` outside `S` obeys the local size rule. */
  ghost predicate SizesOk(t: Tree, h: Heap, S: set<Ref>)
  {
    forall r | r in Refs(t) && r !in S :: SizeOkAt(h, r)
  }

  lemma SizesOkWeaken(t: Tree, h: Heap, S: set<Ref>, S': set<Ref>)
    requires SizesOk(t, h, S) && S <= S'
    ensures SizesOk(t, h, S')
  {
  }

  /** When every node obeys the local size rule, each size field is its subtree's node count. */
  lemma {:induction false} SizeIsCount(t: Tree, par: Link, h: Heap)
    requires Linked(t, par, h)
    requires SizesOk(t, h, {})
    ensures SizeOf(h, RootLink(t)) == Size(t)
  {
    if t.Branch? {
      SizeIsCount(t.left, Ptr(t.ref), h);
      SizeIsCount(t.right, Ptr(t.ref), h);
      assert SizeOkAt(h, t.ref);
    }
  }

  /**
   * Recomputing the size of the hole's node from its children fixes the
   * local rule there; only its parent can be left out of date by the change.
   */
  lemma SizeFixStep(c: Ctx, s: Tree, h: Heap, h': Heap)
    requires Linked(Plug(c, s), Null, h) && Distinct(Plug(c, s)) && s.Branch?
    requires SizesOk(Plug(c, s), h, {s.ref} + PathRefs(c))
    requires s.ref in h
    requires h' == Resized(h, s.ref)
    ensures SizesOk(Plug(c, s), h', PathRefs(c))
  {
    var t, x := Plug(c, s), s.ref;
    LinkedPlug(c, s, Null, h);
    PlugDistinct(c, s);
    assert h[x].left == RootLink(s.left) && h[x].right == RootLink(s.right);
    assert x !in Refs(s.left) && x !in Refs(s.right);
    forall r | r in Refs(t) && r !in PathRefs(c)
      ensures SizeOkAt(h', r)
    {
      if r != x {
        ChildLinksBack(t, Null, h, r);
        assert h[x].parent == Up(c, Null);
        assert h[r].left != Ptr(x) && h[r].right != Ptr(x);
      }
    }
  }

  /** The node at the hole of `c` records its place: its parent and its two subtrees. */
  lemma AtHole(c: Ctx, s: Tree, h: Heap)
    requires Linked(Plug(c, s), Null, h) && s.Branch?
    ensures s.ref in h && h[s.ref].parent == Up(c, Null)
    ensures h[s.ref].left == RootLink(s.left) && h[s.ref].right == RootLink(s.right)
  {
    LinkedPlug(c, s, Null, h);
  }

  lemma HoleFacts(c: Ctx, s: Tree, h: Heap)
    requires Linked(Plug(c, s), Null, h) && Distinct(Plug(c, s)) && s.Branch?
    ensures s.ref in Refs(Plug(c, s)) && s.ref in h && h[s.ref].parent == Up(c, Null)
    ensures h[s.ref].left.Ptr? ==> h[s.ref].left.ref in h && h[s.ref].left != Ptr(s.ref)
    ensures h[s.ref].right.Ptr? ==> h[s.ref].right.ref in h && h[s.ref].right != Ptr(s.ref)
  {
    LinkedPlug(c, s, Null, h);
    PlugDistinct(c, s);
    PlugRefs(c, s);
    LinkedInHeap(Plug(c, s), Null, h);
    assert Refs(s) <= Refs(Plug(c, s));
  }

  /** Size fields play no part in the links. */
  lemma LinkedSizeUpdate(t: Tree, par: Link, h: Heap, x: Ref, v: int)
    requires Linked(t, par, h) && x in h
    ensures Linked(t, par, h[x := h[x].(size := v)])
  {
    LinkedFrame(t, par, h, h[x := h[x].(size := v)]);
  }

  // ---------------------------------------------------------------------
  // Structural queries of STNode

  /** The node, its parent and its grandparent are all present in the arena. */
  ghost predicate UpIn(h: Heap, x: Ref)
  {
    && x in h
    && (h[x].parent.Ptr? ==>
          && h[x].parent.ref in h
          && (h[h[x].parent.ref].parent.Ptr? ==> h[h[x].parent.ref].parent.ref in h))
  }

  function HasParent(h: Heap, x: Ref): bool
    requires x in h
  {
    h[x].parent != Null
  }

  function HasLeftChild(h: Heap, x: Ref): bool
    requires x in h
  {
    h[x].left != Null
  }

  function HasRightChild(h: Heap, x: Ref): bool
    requires x in h
  {
    h[x].right != Null
  }

  function IsLeaf(h: Heap, x: Ref): bool
    requires x in h
  {
    !(HasLeftChild(h, x) || HasRightChild(h, x))
  }

  function HasGrandP(h: Heap, x: Ref): bool
    requires UpIn(h, x)
  {
    if !HasParent(h, x) then false else HasParent(h, h[x].parent.ref)
  }

  function IsLeftChild(h: Heap, x: Ref): bool
    requires x in h && (h[x].parent.Ptr? ==> h[x].parent.ref in h)
  {
    if !HasParent(h, x) then false else Ptr(x) == h[h[x].parent.ref].left
  }

  function IsRightChild(h: Heap, x: Ref): bool
    requires x in h && (h[x].parent.Ptr? ==> h[x].parent.ref in h)
  {
    if !HasParent(h, x) then false else Ptr(x) == h[h[x].parent.ref].right
  }

  /** Node and parent are both left children, or both right children. */
  function ZigZig(h: Heap, x: Ref): bool
    requires UpIn(h, x)
  {
    || (IsLeftChild(h, x) && IsLeftChild(h, h[x].parent.ref))
    || (IsRightChild(h, x) && IsRightChild(h, h[x].parent.ref))
  }

  /** One of node and parent is a left child, the other a right child. */
  function ZigZag(h: Heap, x: Ref): bool
    requires UpIn(h, x)
  {
    || (IsLeftChild(h, x) && IsRightChild(h, h[x].parent.ref))
    || (IsRightChild(h, x) && IsLeftChild(h, h[x].parent.ref))
  }

  /**
   * In a linked tree the queries read the node's position off its path to
   * the root: it has a parent iff the path is non-empty, it is a left child
   * iff the innermost frame has it on the left, and so on.
   */
  lemma {:induction false} Position(c: Ctx, s: Tree, h: Heap)
    requires s.Branch? && Encodes(Plug(c, s), h)
    ensures UpIn(h, s.ref) && h[s.ref].key == s.key
    ensures HasParent(h, s.ref) <==> c != []
    ensures c != [] ==> h[s.ref].parent == Ptr(c[0].p)
    ensures IsLeftChild(h, s.ref) <==> c != [] && c[0].LeftHole?
    ensures IsRightChild(h, s.ref) <==> c != [] && c[0].RightHole?
    ensures HasGrandP(h, s.ref) <==> |c| > 1
    ensures c != [] ==> (IsLeftChild(h, c[0].p) <==> |c| > 1 && c[1].LeftHole?)
    ensures c != [] ==> (IsRightChild(h, c[0].p) <==> |c| > 1 && c[1].RightHole?)
  {
    LinkedPlug(c, s, Null, h);
    PlugDistinct(c, s);
    if c != [] {
      var x, p := s.ref, c[0].p;
      assert x !in Refs(c[0].sibling);
      assert p !in Refs(c[0].sibling);
      assert h[x].parent == Ptr(p);
      var s1 := Fill(c[0], s);
      LinkedPlug(c[1..], s1, Null, h);
      PlugDistinct(c[1..], s1);
      assert Plug(c, s) == Plug(c[1..], s1);
      if |c| > 1 {
        assert p !in Refs(c[1].sibling);
        assert Ptr(p) != RootLink(c[1].sibling);
      }
    }
  }

  /**
   * Whenever a node of a linked tree has a grandparent, exactly one of the
   * zig-zig and zig-zag shapes holds, so every pass of the splay loop rotates.
   */
  lemma SplayStepDefined(c: Ctx, s: Tree, h: Heap)
    requires s.Branch? && Encodes(Plug(c, s), h)
    ensures UpIn(h, s.ref)
    ensures HasGrandP(h, s.ref) ==> (ZigZig(h, s.ref) != ZigZag(h, s.ref))
  {
    Position(c, s, h);
  }
}
