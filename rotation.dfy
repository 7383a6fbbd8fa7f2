/**
 * What one `STNode::rotate` does to the arena, stated against the ghost
 * shape: the links become those of the rotated shape, and the local size
 * rule is restored everywhere except possibly at the new parent.
 */
module Rotations {
  import opened Shape
  import opened Nodes

  /**
   * The subtree that changes parent in a rotation: the right subtree of a
   * left child (right rotation), the left subtree of a right child (left rotation).
   */
  function Inner(f: Frame, s: Tree): Tree
    requires s.Branch?
  {
    if f.LeftHole? then s.right else s.left
  }

  /** The node `p` after the rotation, as a subtree of the rotated shape. */
  function Lowered(f: Frame, s: Tree): Tree
    requires s.Branch?
  {
    if f.LeftHole? then RotateUp(f, s).right else RotateUp(f, s).left
  }

  /** The grandparent's child slot that held the parent holds `x`; nothing else of it changed. */
  ghost predicate SlotMoved(f: Frame, x: Ref, h: Heap, h2: Heap)
  {
    && f.p in h && f.p in h2 && h2[f.p].key == h[f.p].key && h2[f.p].parent == h[f.p].parent
    && (f.LeftHole? ==> h2[f.p].left == Ptr(x) && h2[f.p].right == h[f.p].right)
    && (f.RightHole? ==> h2[f.p].right == Ptr(x) && h2[f.p].left == h[f.p].left)
  }

  /**
   * `h2` is `h` after the relinking of a rotation of `x = s.ref` with its
   * parent `p`: `x` and `p` carry the links of the rotated subtree, the root
   * of the inner subtree hangs below `p`, the grandparent's child slot that
   * held `p` holds `x`, and no other link and no size changed.
   */
  ghost predicate RelinkOk(c: Ctx, s: Tree, h: Heap, h2: Heap)
  {
    RelinkKept(c, s, h, h2) && RelinkMoved(c, s, h, h2)
  }

  /** The part of `RelinkOk` about the nodes whose links stay. */
  ghost predicate RelinkKept(c: Ctx, s: Tree, h: Heap, h2: Heap)
  {
    && s.Branch? && c != []
    && h2.Keys == h.Keys && s.ref in h2 && c[0].p in h2
    && SameLinks(h, h2, Refs(Plug(c, s)) - {s.ref, c[0].p} - LinkSet(RootLink(Inner(c[0], s))) - LinkSet(Up(c[1..], Null)))
    && (forall q | q in h && q != s.ref && q != c[0].p :: h2[q].size == h[q].size)
    && (forall q | q in h && q != s.ref && q != c[0].p && q !in LinkSet(Up(c[1..], Null)) ::
          h2[q].left == h[q].left && h2[q].right == h[q].right)
  }

  /** The part of `RelinkOk` about the four nodes whose links change. */
  ghost predicate RelinkMoved(c: Ctx, s: Tree, h: Heap, h2: Heap)
  {
    && s.Branch? && c != [] && s.ref in h2 && c[0].p in h2
    && LinksOf(h2[s.ref]) == (s.key, RootLink(RotateUp(c[0], s).left), RootLink(RotateUp(c[0], s).right), Up(c[1..], Null))
    && LinksOf(h2[c[0].p]) == (c[0].pkey, RootLink(Lowered(c[0], s).left), RootLink(Lowered(c[0], s).right), Ptr(s.ref))
    && (Inner(c[0], s).Branch? ==>
          var b := Inner(c[0], s).ref;
          b in h && b in h2 && LinksOf(h2[b]) == LinksOf(h[b].(parent := Ptr(c[0].p))))
    && (|c| > 1 ==> SlotMoved(c[1], s.ref, h, h2))
  }

  /**
   * After the relinking of a rotation, the arena holds the links of the
   * rotated shape.
   */
  lemma RotateLinks(c: Ctx, s: Tree, h: Heap, h': Heap)
    requires Linked(Plug(c, s), Null, h) && Distinct(Plug(c, s)) && RelinkOk(c, s, h, h')
    ensures Linked(Plug(c[1..], RotateUp(c[0], s)), Null, h')
    ensures Distinct(Plug(c[1..], RotateUp(c[0], s)))
    ensures Inorder(Plug(c[1..], RotateUp(c[0], s))) == Inorder(Plug(c, s))
    ensures Refs(Plug(c[1..], RotateUp(c[0], s))) == Refs(Plug(c, s))
  {
    var f, c1 := c[0], c[1..];
    var x, p := s.ref, f.p;
    var t := Plug(c, s);
    assert t == Plug(c1, Fill(f, s));
    var r := RotateUp(f, s);
    LinkedPlug(c, s, Null, h);
    PlugDistinct(c, s);
    PlugRefs(c, s);
    PlugDistinct(c1, Fill(f, s));
    PlugRefs(c1, Fill(f, s));
    PlugInorder(c1, Fill(f, s));
    RotateUpPreserves(f, s);
    PlugDistinct(c1, r);
    PlugRefs(c1, r);
    PlugInorder(c1, r);
    var top := Up(c1, Null);
    var b := Inner(f, s);
    assert x !in CtxRefs(c1) && p !in CtxRefs(c1);
    assert Refs(b) <= Refs(s);
    // the path above the rotated pair: only the grandparent's slot changed
    Rehole(c1, Ptr(p), Ptr(x), Null, h, h');
    // the three subtrees that do not move keep their links
    match f {
      case LeftHole(_, pk, cc) =>
        var a := s.left;
        assert Refs(a) <= Refs(s) && Refs(cc) <= CtxRefs(c);
        LinkedFrame(a, Ptr(x), h, h');
        LinkedFrame(cc, Ptr(p), h, h');
        Reparent(b, Ptr(x), Ptr(p), h, h');
        assert Linked(Branch(b, p, pk, cc), Ptr(x), h');
      case RightHole(aa, _, pk) =>
        var cc := s.right;
        assert Refs(cc) <= Refs(s) && Refs(aa) <= CtxRefs(c);
        LinkedFrame(cc, Ptr(x), h, h');
        LinkedFrame(aa, Ptr(p), h, h');
        Reparent(b, Ptr(x), Ptr(p), h, h');
        assert Linked(Branch(aa, p, pk, b), Ptr(x), h');
    }
    assert Linked(r, top, h');
    LinkedPlug(c1, r, Null, h');
  }

  /**
   * Where the size rule may be broken after a rotation of `x` with its
   * parent `p` when it was broken at most in `S` before: nowhere if `S` was
   * empty; otherwise in `S` except at `x` and `p`, whose sizes are
   * recomputed, and at the node above `x`, whose child's size changed.
   */
  function StaleAfter(c: Ctx, s: Tree, S: set<Ref>): set<Ref>
    requires s.Branch? && c != []
  {
    if S == {} then {} else S - {s.ref, c[0].p} + LinkSet(Up(c[1..], Null))
  }

  /**
   * Recomputing the sizes of `p` and then `x` after the relinking leaves
   * the local size rule broken at most in `StaleAfter(c, s, S)`.
   */
  lemma RotateSizes(c: Ctx, s: Tree, h: Heap, h': Heap, S: set<Ref>)
    requires Linked(Plug(c, s), Null, h) && Distinct(Plug(c, s)) && s.Branch? && c != []
    requires Linked(Plug(c[1..], RotateUp(c[0], s)), Null, h')
    requires Refs(Plug(c[1..], RotateUp(c[0], s))) == Refs(Plug(c, s))
    requires forall r | r in Refs(Plug(c, s)) && r != s.ref && r != c[0].p :: r in h && r in h' && h'[r].size == h[r].size
    requires forall r | r in Refs(Plug(c, s)) && r != s.ref && r != c[0].p && r !in LinkSet(Up(c[1..], Null)) ::
      r in h && r in h' && h'[r].left == h[r].left && h'[r].right == h[r].right
    requires SizeOkAt(h', s.ref) && SizeOkAt(h', c[0].p)
    requires SizesOk(Plug(c, s), h, S)
    ensures SizesOk(Plug(c[1..], RotateUp(c[0], s)), h', StaleAfter(c, s, S))
  {
    var x, p := s.ref, c[0].p;
    var t, t' := Plug(c, s), Plug(c[1..], RotateUp(c[0], s));
    var top := Up(c[1..], Null);
    var S' := StaleAfter(c, s, S);
    LinkedPlug(c[1..], RotateUp(c[0], s), Null, h');
    assert h'[x].parent == top;
    assert h'[p].parent == Ptr(x);
    forall r | r in Refs(t') && r !in S'
      ensures SizeOkAt(h', r)
    {
      if r == x || r == p {
      } else if r in LinkSet(top) {
        GrandparentSize(c, s, h, h');
      } else {
        OtherSize(t, t', h, h', x, p, top, r);
      }
    }
  }

  /** A node away from the rotated pair keeps its size and its children's sizes. */
  lemma OtherSize(t: Tree, t': Tree, h: Heap, h': Heap, x: Ref, p: Ref, top: Link, r: Ref)
    requires Linked(t, Null, h) && Linked(t', Null, h') && Refs(t) == Refs(t')
    requires r in Refs(t) && r != x && r != p && r !in LinkSet(top)
    requires x in h' && p in h' && h'[x].parent == top && h'[p].parent == Ptr(x)
    requires forall q | q in Refs(t) && q != x && q != p :: q in h && q in h' && h'[q].size == h[q].size
    requires r in h && r in h' && h'[r].left == h[r].left && h'[r].right == h[r].right
    requires SizeOkAt(h, r)
    ensures SizeOkAt(h', r)
  {
    ChildLinksBack(t', Null, h', r);
  }

  /**
   * The grandparent's child slot moves from `p` to `x`, and the new size of
   * `x` is the old size of `p`, so the grandparent's rule still holds.
   */
  lemma GrandparentSize(c: Ctx, s: Tree, h: Heap, h': Heap)
    requires Linked(Plug(c, s), Null, h) && Distinct(Plug(c, s)) && s.Branch? && |c| > 1
    requires Linked(Plug(c[1..], RotateUp(c[0], s)), Null, h')
    requires forall r | r in Refs(Plug(c, s)) && r != s.ref && r != c[0].p :: r in h && r in h' && h'[r].size == h[r].size
    requires SizeOkAt(h', s.ref) && SizeOkAt(h', c[0].p)
    requires SizesOk(Plug(c, s), h, {})
    ensures SizeOkAt(h', c[1].p)
  {
    var x, p, g := s.ref, c[0].p, c[1].p;
    var c1 := c[1..];
    LinkedPlug(c, s, Null, h);
    LinkedPlug(c1, RotateUp(c[0], s), Null, h');
    PlugDistinct(c, s);
    PlugRefs(c, s);
    assert CtxLinked(c1, Ptr(p), Null, h);
    assert CtxLinked(c1, Ptr(x), Null, h');
    assert c1[0] == c[1];
    assert FrameLinked(c[1], Ptr(p), Up(c1[1..], Null), h);
    assert FrameLinked(c[1], Ptr(x), Up(c1[1..], Null), h');
    var sib := c[1].sibling;
    assert Refs(sib) <= CtxRefs(c1) && CtxRefs(c1) <= CtxRefs(c);
    assert x !in Refs(sib) && p !in Refs(sib) && g != x && g != p;
    assert SizeOf(h', RootLink(sib)) == SizeOf(h, RootLink(sib));
    assert Refs(s) + CtxRefs(c) == Refs(Plug(c, s));
    assert SizeOkAt(h, x) && SizeOkAt(h, p) && SizeOkAt(h, g);
    OldPairSizes(c, s, h);
    NewPairSizes(c, s, h, h');
  }

  /** Before the rotation, the size of `p` counts `x`, `x`'s two subtrees and `p`'s other subtree. */
  lemma OldPairSizes(c: Ctx, s: Tree, h: Heap)
    requires Linked(Plug(c, s), Null, h) && s.Branch? && c != []
    requires SizeOkAt(h, s.ref) && SizeOkAt(h, c[0].p)
    ensures SizeOf(h, Ptr(c[0].p)) ==
      2 + SizeOf(h, RootLink(s.left)) + SizeOf(h, RootLink(s.right)) + SizeOf(h, RootLink(c[0].sibling))
  {
    LinkedPlug(c, s, Null, h);
    assert h[s.ref].left == RootLink(s.left) && h[s.ref].right == RootLink(s.right);
  }

  /** After the rotation, the size of `x` counts the same nodes. */
  lemma NewPairSizes(c: Ctx, s: Tree, h: Heap, h': Heap)
    requires Linked(Plug(c, s), Null, h) && Distinct(Plug(c, s)) && s.Branch? && c != []
    requires Linked(Plug(c[1..], RotateUp(c[0], s)), Null, h')
    requires forall r | r in Refs(Plug(c, s)) && r != s.ref && r != c[0].p :: r in h && r in h' && h'[r].size == h[r].size
    requires SizeOkAt(h', s.ref) && SizeOkAt(h', c[0].p)
    ensures SizeOf(h', Ptr(s.ref)) ==
      2 + SizeOf(h, RootLink(s.left)) + SizeOf(h, RootLink(s.right)) + SizeOf(h, RootLink(c[0].sibling))
  {
    var x, p := s.ref, c[0].p;
    var a, b, d := s.left, s.right, c[0].sibling;
    PlugDistinct(c, s);
    PlugRefs(c, s);
    assert Refs(a) <= Refs(s) && Refs(b) <= Refs(s) && Refs(d) <= CtxRefs(c);
    assert x !in Refs(a) && x !in Refs(b) && x !in Refs(d);
    assert p !in Refs(a) && p !in Refs(b) && p !in Refs(d);
    SameSize(a, h, h', x, p, Refs(Plug(c, s)));
    SameSize(b, h, h', x, p, Refs(Plug(c, s)));
    SameSize(d, h, h', x, p, Refs(Plug(c, s)));
    LinkedPlug(c[1..], RotateUp(c[0], s), Null, h');
    var r := RotateUp(c[0], s);
    assert Linked(r, Up(c[1..], Null), h');
    if c[0].LeftHole? {
      assert h'[x].left == RootLink(a) && h'[x].right == Ptr(p);
      assert h'[p].left == RootLink(b) && h'[p].right == RootLink(d);
    } else {
      assert h'[x].left == Ptr(p) && h'[x].right == RootLink(b);
      assert h'[p].left == RootLink(d) && h'[p].right == RootLink(a);
    }
  }

  lemma SameSize(t: Tree, h: Heap, h': Heap, x: Ref, p: Ref, A: set<Ref>)
    requires Refs(t) <= A && x !in Refs(t) && p !in Refs(t)
    requires forall r | r in A && r != x && r != p :: r in h && r in h' && h'[r].size == h[r].size
    ensures SizeOf(h', RootLink(t)) == SizeOf(h, RootLink(t))
  {
  }

  /**
   * In a zig-zig step, rotating the parent up over the grandparent leaves the
   * node below its parent on the same side, with the grandparent (and its
   * other subtree) moved into the parent's far subtree.
   */
  lemma ZigZigFrame(f0: Frame, f1: Frame, s: Tree)
    requires f0.LeftHole? == f1.LeftHole?
    ensures RotateUp(f1, Fill(f0, s)) == Fill(f0.(sibling := Fill(f1, f0.sibling)), s)
  {
  }
  /** The out-of-date nodes stay among the ancestors of the rotated node. */
  lemma StaleAfterPath(c: Ctx, s: Tree, S: set<Ref>)
    requires s.Branch? && c != [] && S <= {s.ref} + PathRefs(c)
    ensures StaleAfter(c, s, S) <= PathRefs(c[1..])
  {
    assert PathRefs(c) == {c[0].p} + PathRefs(c[1..]);
  }

  /**
   * The zig-zig step as paths: after rotating the parent over the
   * grandparent, the node sits below its parent on the same side, in a path
   * that is two frames shorter above the parent.
   */
  lemma ZigZigStep(c: Ctx, s: Tree)
    requires |c| > 1 && c[0].LeftHole? == c[1].LeftHole?
    ensures var f := c[0].(sibling := Fill(c[1], c[0].sibling));
      && Plug(c, s) == Plug(c[1..], Fill(c[0], s))
      && Plug(c[1..][1..], RotateUp(c[1..][0], Fill(c[0], s))) == Plug([f] + c[2..], s)
      && ([f] + c[2..])[1..] == c[2..] && ([f] + c[2..])[0] == f
      && PathRefs([f] + c[2..]) == {c[0].p} + PathRefs(c[2..])
      && PathRefs(c) == {c[0].p, c[1].p} + PathRefs(c[2..])
  {
    var f := c[0].(sibling := Fill(c[1], c[0].sibling));
    ZigZigFrame(c[0], c[1], s);
    assert c[1..][1..] == c[2..] && ([f] + c[2..])[1..] == c[2..];
  }

  /** Disjointness facts about the nodes a rotation touches. */
  lemma RotateFacts(c: Ctx, s: Tree, h: Heap)
    requires Linked(Plug(c, s), Null, h) && Distinct(Plug(c, s)) && s.Branch? && c != []
    ensures s.ref in Refs(Plug(c, s)) && c[0].p in Refs(Plug(c, s)) && s.ref != c[0].p
    ensures s.ref in h && c[0].p in h && h[s.ref].key == s.key && h[c[0].p].key == c[0].pkey
    ensures h[s.ref].left == RootLink(s.left) && h[s.ref].right == RootLink(s.right)
    ensures h[s.ref].parent == Ptr(c[0].p) && h[c[0].p].parent == Up(c[1..], Null)
    ensures s.left.Branch? ==> s.left.ref in h && s.left.ref != s.ref && s.left.ref != c[0].p
    ensures s.right.Branch? ==> s.right.ref in h && s.right.ref != s.ref && s.right.ref != c[0].p
    ensures |c| > 1 ==> c[1].p in h && c[1].p != s.ref && c[1].p != c[0].p
    ensures |c| > 1 ==> Inner(c[0], s).Branch? ==> Inner(c[0], s).ref != c[1].p
    ensures c[0].LeftHole? ==> h[c[0].p].left == Ptr(s.ref) && h[c[0].p].right == RootLink(c[0].sibling)
    ensures c[0].RightHole? ==> h[c[0].p].right == Ptr(s.ref) && h[c[0].p].left == RootLink(c[0].sibling)
    ensures |c| > 1 && c[1].LeftHole? ==> h[c[1].p].left == Ptr(c[0].p) && h[c[1].p].right != Ptr(c[0].p)
    ensures |c| > 1 && c[1].RightHole? ==> h[c[1].p].right == Ptr(c[0].p) && h[c[1].p].left != Ptr(c[0].p)
  {
    LinkedPlug(c, s, Null, h);
    PlugDistinct(c, s);
    PlugRefs(c, s);
    LinkedInHeap(Plug(c, s), Null, h);
    assert c[0].p !in Refs(c[0].sibling);
    if |c| > 1 {
      assert CtxLinked(c[1..], Ptr(c[0].p), Null, h);
      assert c[1] == c[1..][0];
      assert c[1].p !in Refs(c[1].sibling) && c[0].p !in Refs(c[1].sibling);
      assert Ptr(c[0].p) != RootLink(c[1].sibling);
      assert c[1].p in CtxRefs(c[1..]);
    }
  }

  /** The arena after `rotateRight` (or `rotateLeft`) at `x`. */
  ghost function PairRotated(c: Ctx, s: Tree, h: Heap): Heap
    requires Linked(Plug(c, s), Null, h) && Distinct(Plug(c, s)) && s.Branch? && c != []
  {
    RotateFacts(c, s, h);
    var x, p := s.ref, c[0].p;
    if c[0].LeftHole? then WithRight(WithLeft(h, p, RootLink(s.right)), x, Ptr(p))
    else WithLeft(WithRight(h, p, RootLink(s.left)), x, Ptr(p))
  }

  /**
   * The arena after the relinking part of `rotate`: the pair rotation
   * followed by hanging `x` into the grandparent's slot, or making it
   * parentless.
   */
  ghost function Relinked(c: Ctx, s: Tree, h: Heap): Heap
    requires Linked(Plug(c, s), Null, h) && Distinct(Plug(c, s)) && s.Branch? && c != []
  {
    RotateFacts(c, s, h);
    PairFacts(c, s, h);
    var h1 := PairRotated(c, s, h);
    if |c| > 1 then
      if c[1].LeftHole? then WithLeft(h1, c[1].p, Ptr(s.ref)) else WithRight(h1, c[1].p, Ptr(s.ref))
    else
      h1[s.ref := h1[s.ref].(parent := Null)]
  }

  /** The pair rotation changes the records of `x`, `p` and the inner subtree's root only. */
  lemma PairFacts(c: Ctx, s: Tree, h: Heap)
    requires Linked(Plug(c, s), Null, h) && Distinct(Plug(c, s)) && s.Branch? && c != []
    ensures var h1 := PairRotated(c, s, h);
      var x, p, b := s.ref, c[0].p, Inner(c[0], s);
      && h1.Keys == h.Keys
      && (forall q | q in h && q != x && q != p && q !in LinkSet(RootLink(b)) :: h1[q] == h[q])
      && h1[x] == h[x].(left := RootLink(RotateUp(c[0], s).left), right := RootLink(RotateUp(c[0], s).right))
      && h1[p] == h[p].(left := RootLink(Lowered(c[0], s).left), right := RootLink(Lowered(c[0], s).right), parent := Ptr(x))
      && (b.Branch? ==> h1[b.ref] == h[b.ref].(parent := Ptr(p)))
  {
    RotateFacts(c, s, h);
  }

  /** `Relinked` is a relinking in the sense of `RelinkOk`. */
  lemma RelinkedFacts(c: Ctx, s: Tree, h: Heap)
    requires Linked(Plug(c, s), Null, h) && Distinct(Plug(c, s)) && s.Branch? && c != []
    ensures RelinkOk(c, s, h, Relinked(c, s, h))
  {
    PairFacts(c, s, h);
    SlotFacts(c, s, h);
    ComposeRelink(c, s, h, PairRotated(c, s, h), Relinked(c, s, h));
  }

  /** Hanging `x` into the grandparent's slot changes only `x`'s parent and that slot. */
  lemma SlotFacts(c: Ctx, s: Tree, h: Heap)
    requires Linked(Plug(c, s), Null, h) && Distinct(Plug(c, s)) && s.Branch? && c != []
    ensures var h1, h2 := PairRotated(c, s, h), Relinked(c, s, h);
      && h2.Keys == h1.Keys && s.ref in h1
      && (forall q | q in h1 && q != s.ref && q !in LinkSet(Up(c[1..], Null)) :: h2[q] == h1[q])
      && h2[s.ref] == h1[s.ref].(parent := Up(c[1..], Null))
      && (|c| > 1 ==> c[1].p in h1)
      && (|c| > 1 && c[1].LeftHole? ==> h2[c[1].p] == h1[c[1].p].(left := Ptr(s.ref)))
      && (|c| > 1 && c[1].RightHole? ==> h2[c[1].p] == h1[c[1].p].(right := Ptr(s.ref)))
  {
    RotateFacts(c, s, h);
    PairFacts(c, s, h);
  }

  /** The pair rotation followed by the slot update is a relinking. */
  lemma ComposeRelink(c: Ctx, s: Tree, h: Heap, h1: Heap, h2: Heap)
    requires Linked(Plug(c, s), Null, h) && Distinct(Plug(c, s)) && s.Branch? && c != []
    requires var x, p, b := s.ref, c[0].p, Inner(c[0], s);
      && h1.Keys == h.Keys && x in h && p in h
      && (forall q | q in h && q != x && q != p && q !in LinkSet(RootLink(b)) :: h1[q] == h[q])
      && h1[x] == h[x].(left := RootLink(RotateUp(c[0], s).left), right := RootLink(RotateUp(c[0], s).right))
      && h1[p] == h[p].(left := RootLink(Lowered(c[0], s).left), right := RootLink(Lowered(c[0], s).right), parent := Ptr(x))
      && (b.Branch? ==> b.ref in h && h1[b.ref] == h[b.ref].(parent := Ptr(p)))
    requires h2.Keys == h1.Keys
      && (forall q | q in h1 && q != s.ref && q !in LinkSet(Up(c[1..], Null)) :: h2[q] == h1[q])
      && h2[s.ref] == h1[s.ref].(parent := Up(c[1..], Null))
      && (|c| > 1 ==> c[1].p in h1)
      && (|c| > 1 && c[1].LeftHole? ==> h2[c[1].p] == h1[c[1].p].(left := Ptr(s.ref)))
      && (|c| > 1 && c[1].RightHole? ==> h2[c[1].p] == h1[c[1].p].(right := Ptr(s.ref)))
    ensures RelinkOk(c, s, h, h2)
  {
    RotateFacts(c, s, h);
    assert RelinkKept(c, s, h, h2);
    assert RelinkMoved(c, s, h, h2);
  }

  /** `x = s.ref` sits in the hole of the non-empty path `c` of a tree the arena encodes. */
  ghost predicate At(c: Ctx, s: Tree, h: Heap)
  {
    s.Branch? && c != [] && Encodes(Plug(c, s), h)
  }

  /** Going into a rotation, the size rule holds outside `S`. */
  ghost predicate StaleNear(c: Ctx, s: Tree, h: Heap, S: set<Ref>)
  {
    s.Branch? && c != [] && SizesOk(Plug(c, s), h, S)
  }

  /** After the relinking, `h2` encodes the rotated shape, which has the old keys and nodes. */
  ghost predicate RelinkDone(c: Ctx, s: Tree, h: Heap, h2: Heap)
  {
    && At(c, s, h) && RelinkOk(c, s, h, h2) && s.ref != c[0].p
    && Encodes(Plug(c[1..], RotateUp(c[0], s)), h2)
    && Inorder(Plug(c[1..], RotateUp(c[0], s))) == Inorder(Plug(c, s))
    && Refs(Plug(c[1..], RotateUp(c[0], s))) == Refs(Plug(c, s))
  }

  /** The relinking part of one `rotate` establishes `RelinkDone`. */
  lemma RotateStep(c: Ctx, s: Tree, h: Heap)
    requires At(c, s, h)
    ensures RelinkDone(c, s, h, Relinked(c, s, h))
  {
    var h2 := Relinked(c, s, h);
    var t' := Plug(c[1..], RotateUp(c[0], s));
    RelinkedFacts(c, s, h);
    RotateLinks(c, s, h, h2);
    StepChildren(c, s, h, h2);
    LinkedInHeap(t', Null, h2);
    assert Encodes(t', h2);
  }

  /**
   * After the relinking, the children of `p` and `x` are present and are not
   * the nodes themselves, so their sizes can be recomputed.
   */
  lemma RelinkChildren(c: Ctx, s: Tree, h: Heap, h2: Heap)
    requires RelinkDone(c, s, h, h2)
    ensures var p := c[0].p;
      && (h2[p].left.Ptr? ==> h2[p].left.ref in h2 && h2[p].left != Ptr(p) && h2[p].left != Ptr(s.ref))
      && (h2[p].right.Ptr? ==> h2[p].right.ref in h2 && h2[p].right != Ptr(p) && h2[p].right != Ptr(s.ref))
      && (h2[s.ref].left.Ptr? ==> h2[s.ref].left.ref in h2 && h2[s.ref].left != Ptr(s.ref))
      && (h2[s.ref].right.Ptr? ==> h2[s.ref].right.ref in h2 && h2[s.ref].right != Ptr(s.ref))
  {
    StepChildren(c, s, h, h2);
  }

  /**
   * The whole of one `rotate`: after the relinking, recomputing the sizes of
   * `p` and then `x` leaves an arena that encodes the rotated shape with the
   * size rule broken at most at `x`'s new parent, and nowhere if it was
   * nowhere broken before.
   */
  lemma RotateDone(c: Ctx, s: Tree, h: Heap, h2: Heap, h': Heap, S: set<Ref>)
    requires RelinkDone(c, s, h, h2) && StaleNear(c, s, h, S)
    requires h' == Resized(Resized(h2, c[0].p), s.ref)
    ensures Encodes(Plug(c[1..], RotateUp(c[0], s)), h') && h'.Keys == h.Keys
    ensures SizesOk(Plug(c[1..], RotateUp(c[0], s)), h', StaleAfter(c, s, S))
  {
    var t' := Plug(c[1..], RotateUp(c[0], s));
    StepChildren(c, s, h, h2);
    ResizedPair(h2, c[0].p, s.ref, {});
    StepSizes(c, s, h, h2, h', S);
    assert Encodes(t', h');
  }

  /** The children of `p` and `x` after the relinking are present and are not the nodes themselves. */
  lemma StepChildren(c: Ctx, s: Tree, h: Heap, h2: Heap)
    requires Linked(Plug(c, s), Null, h) && Distinct(Plug(c, s)) && s.Branch? && c != []
    requires Linked(Plug(c[1..], RotateUp(c[0], s)), Null, h2) && Refs(Plug(c[1..], RotateUp(c[0], s))) == Refs(Plug(c, s))
    requires s.ref in h2 && c[0].p in h2 && h2[c[0].p].parent == Ptr(s.ref) && h2[s.ref].parent == Up(c[1..], Null)
    ensures s.ref != c[0].p
    ensures var h2p := h2[c[0].p];
      && (h2p.left.Ptr? ==> h2p.left.ref in h2 && h2p.left != Ptr(c[0].p) && h2p.left != Ptr(s.ref))
      && (h2p.right.Ptr? ==> h2p.right.ref in h2 && h2p.right != Ptr(c[0].p) && h2p.right != Ptr(s.ref))
      && (h2[s.ref].left.Ptr? ==> h2[s.ref].left.ref in h2 && h2[s.ref].left != Ptr(s.ref))
      && (h2[s.ref].right.Ptr? ==> h2[s.ref].right.ref in h2 && h2[s.ref].right != Ptr(s.ref))
  {
    var x, p := s.ref, c[0].p;
    var t' := Plug(c[1..], RotateUp(c[0], s));
    PlugRefs(c, s);
    RotateFacts(c, s, h);
    assert x in Refs(t') && p in Refs(t');
    ChildLinksBack(t', Null, h2, p);
    ChildLinksBack(t', Null, h2, x);
  }

  /** Recomputing the sizes of `p` and then `x` changes nothing else and fixes both. */
  lemma ResizedPair(h2: Heap, p: Ref, x: Ref, A: set<Ref>)
    requires p in h2 && x in h2 && p != x
    requires h2[p].left != Ptr(p) && h2[p].right != Ptr(p) && h2[p].left != Ptr(x) && h2[p].right != Ptr(x)
    requires h2[x].left != Ptr(x) && h2[x].right != Ptr(x)
    ensures var h' := Resized(Resized(h2, p), x);
      && h'.Keys == h2.Keys
      && (forall q | q in h2 && q != p && q != x :: h'[q] == h2[q])
      && LinksOf(h'[p]) == LinksOf(h2[p]) && LinksOf(h'[x]) == LinksOf(h2[x])
      && SizeOkAt(h', p) && SizeOkAt(h', x)
      && SameLinks(h2, h', A)
  {
  }

  /**
   * The relinked arena `h2` with the sizes of `p` and `x` recomputed (`h'`)
   * encodes the rotated shape and obeys the size rule as `RotateSizes` says.
   */
  lemma StepSizes(c: Ctx, s: Tree, h: Heap, h2: Heap, h': Heap, S: set<Ref>)
    requires Linked(Plug(c, s), Null, h) && Distinct(Plug(c, s)) && s.Branch? && c != []
    requires SizesOk(Plug(c, s), h, S)
    requires Linked(Plug(c[1..], RotateUp(c[0], s)), Null, h2) && Refs(Plug(c[1..], RotateUp(c[0], s))) == Refs(Plug(c, s))
    requires RelinkOk(c, s, h, h2) && s.ref != c[0].p
    requires h'.Keys == h2.Keys && forall q | q in h2 && q != s.ref && q != c[0].p :: h'[q] == h2[q]
    requires LinksOf(h'[s.ref]) == LinksOf(h2[s.ref]) && LinksOf(h'[c[0].p]) == LinksOf(h2[c[0].p])
    requires SizeOkAt(h', s.ref) && SizeOkAt(h', c[0].p)
    ensures Linked(Plug(c[1..], RotateUp(c[0], s)), Null, h')
    ensures SizesOk(Plug(c[1..], RotateUp(c[0], s)), h', StaleAfter(c, s, S))
  {
    var t' := Plug(c[1..], RotateUp(c[0], s));
    LinkedInHeap(Plug(c, s), Null, h);
    assert Linked(t', Null, h') by {
      SameLinksPair(h2, h', s.ref, c[0].p, Refs(t'));
      LinkedFrame(t', Null, h2, h');
    }
    RotateSizes(c, s, h, h', S);
  }

  lemma SameLinksPair(h2: Heap, h': Heap, x: Ref, p: Ref, A: set<Ref>)
    requires h'.Keys == h2.Keys && forall q | q in h2 && q != x && q != p :: h'[q] == h2[q]
    requires x in h2 && p in h2 && LinksOf(h'[x]) == LinksOf(h2[x]) && LinksOf(h'[p]) == LinksOf(h2[p])
    ensures SameLinks(h2, h', A)
  {
  }

  /** Size fields play no part in the links. */
  lemma LinkedResized(t: Tree, h: Heap, p: Ref, x: Ref)
    requires Linked(t, Null, h) && p in h && x in h
    ensures Linked(t, Null, Resized(Resized(h, p), x))
  {
    LinkedSizeUpdate(t, Null, h, p, Resized(h, p)[p].size);
    LinkedSizeUpdate(t, Null, Resized(h, p), x, Resized(Resized(h, p), x)[x].size);
  }
}
