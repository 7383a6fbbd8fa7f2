/**
 * The arena side of `removeNode`: `replaceNode` and the relinking of each
 * case, shown to encode the tree with the node deleted, with the local
 * size rule broken only at nodes that `removeNode` recomputes or splays.
 */
module Removal {
  import opened Shape
  import opened Nodes
  import opened Deletion

  /** The node `n` with its link on the side of the hole of `f` set to `m`. */
  function SetHole(n: Node, f: Frame, m: Link): Node
  {
    if f.LeftHole? then n.(left := m) else n.(right := m)
  }

  /**
   * `replaceNode(n, m)` for the node `n` at the hole of `c`: the parent's
   * link to `n` (if there is a parent) becomes `m`, and `m` records `n`'s
   * parent as its own.
   */
  ghost function Spliced(c: Ctx, m: Link, h: Heap): Heap
    requires c != [] ==> c[0].p in h
    requires m.Ptr? ==> m.ref in h
  {
    var h1 :=
      if c == [] then h
      else if c[0].LeftHole? then WithLeft(h, c[0].p, m)
      else WithRight(h, c[0].p, m);
    if m.Ptr? then h1[m.ref := h1[m.ref].(parent := Up(c, Null))] else h1
  }

  /**
   * For `m` a node below `n`, `replaceNode` changes only the parent's slot
   * and `m`'s parent link, and no size.
   */
  lemma SplicedFacts(c: Ctx, s: Tree, m: Link, h: Heap)
    requires s.Branch? && Encodes(Plug(c, s), h) && (m.Ptr? ==> m.ref in Refs(s) && m.ref != s.ref)
    ensures c != [] ==> c[0].p in h
    ensures m.Ptr? ==> m.ref in h
    ensures var h' := Spliced(c, m, h);
      && SizesKept(h, h') && ChildrenKept(h, h', LinkSet(Up(c, Null)))
      && KeptOutside(h, h', LinkSet(Up(c, Null)) + LinkSet(m))
      && (c != [] ==> h'[c[0].p] == SetHole(h[c[0].p], c[0], m))
      && (m.Ptr? ==> h'[m.ref] == h[m.ref].(parent := Up(c, Null)))
  {
    LinkedPlug(c, s, Null, h);
    PlugDistinct(c, s);
    PlugRefs(c, s);
    CtxLinkedInHeap(c, Ptr(s.ref), Null, h);
    LinkedInHeap(s, Up(c, Null), h);
    if c != [] {
      assert c[0].p in CtxRefs(c);
    }
    SplicedKept(c, m, h);
  }

  lemma SplicedKept(c: Ctx, m: Link, h: Heap)
    requires c != [] ==> c[0].p in h
    requires m.Ptr? ==> m.ref in h
    requires c != [] && m.Ptr? ==> m.ref != c[0].p
    ensures var h' := Spliced(c, m, h);
      && SizesKept(h, h') && ChildrenKept(h, h', LinkSet(Up(c, Null)))
      && KeptOutside(h, h', LinkSet(Up(c, Null)) + LinkSet(m))
      && (c != [] ==> h'[c[0].p] == SetHole(h[c[0].p], c[0], m))
      && (m.Ptr? ==> h'[m.ref] == h[m.ref].(parent := Up(c, Null)))
  {
  }

  /** `h'` allocates the same nodes as `h`, with the same size fields. */
  ghost predicate SizesKept(h: Heap, h': Heap)
  {
    h'.Keys == h.Keys && forall q | q in h :: h'[q].size == h[q].size
  }

  /** Outside `S`, every node of `h` has the same children in `h'`. */
  ghost predicate ChildrenKept(h: Heap, h': Heap, S: set<Ref>)
  {
    forall q | q in h && q !in S :: q in h' && h'[q].left == h[q].left && h'[q].right == h[q].right
  }

  lemma KeptTrans(h: Heap, h1: Heap, h2: Heap, S1: set<Ref>, S2: set<Ref>, S: set<Ref>)
    requires SizesKept(h, h1) && SizesKept(h1, h2)
    requires ChildrenKept(h, h1, S1) && ChildrenKept(h1, h2, S2) && S1 <= S && S2 <= S
    ensures SizesKept(h, h2) && ChildrenKept(h, h2, S)
  {
  }

  /** `setLeftChild` and `setRightChild` change no size and only the children of `n`. */
  lemma WithChildKept(h: Heap, n: Ref, m: Link)
    requires n in h && (m.Ptr? ==> m.ref in h)
    ensures SizesKept(h, WithLeft(h, n, m)) && ChildrenKept(h, WithLeft(h, n, m), {n})
    ensures SizesKept(h, WithRight(h, n, m)) && ChildrenKept(h, WithRight(h, n, m), {n})
    ensures KeptOutside(h, WithLeft(h, n, m), {n} + LinkSet(m))
    ensures KeptOutside(h, WithRight(h, n, m), {n} + LinkSet(m))
  {
  }

  lemma OutsideTrans(h: Heap, h1: Heap, h2: Heap, A: set<Ref>, B: set<Ref>, S: set<Ref>)
    requires KeptOutside(h, h1, A) && KeptOutside(h1, h2, B) && A <= S && B <= S
    ensures KeptOutside(h, h2, S)
  {
  }

  /**
   * Relinking that keeps every size field, and the children of every node
   * outside `S`, keeps the local size rule everywhere outside `S`.
   */
  lemma SizesRelinked(t: Tree, t': Tree, h: Heap, h': Heap, S: set<Ref>)
    requires SizesOk(t, h, {}) && Refs(t') <= Refs(t)
    requires SizesKept(h, h') && ChildrenKept(h, h', S)
    ensures SizesOk(t', h', S)
  {
    forall r | r in Refs(t') && r !in S ensures SizeOkAt(h', r) {
      assert SizeOkAt(h, r);
    }
  }

  /**
   * Removal of a node `n` with at most one child `u`: after `replaceNode(n, u)`
   * the arena encodes the tree with `n` deleted, and only `n`'s parent can
   * break the local size rule.
   */
  lemma SplicedChild(c: Ctx, s: Tree, h: Heap)
    requires s.Branch? && Encodes(Plug(c, s), h) && SizesOk(Plug(c, s), h, {})
    requires s.left.Empty? || s.right.Empty?
    ensures var u := DeleteRoot(s);
      && (c != [] ==> c[0].p in h)
      && (u.Branch? ==> u.ref in h)
      && Linked(Plug(c, u), Null, Spliced(c, RootLink(u), h))
      && SizesOk(Plug(c, u), Spliced(c, RootLink(u), h), LinkSet(Up(c, Null)))
      && SizesKept(h, Spliced(c, RootLink(u), h))
  {
    var u := DeleteRoot(s);
    var n, m := s.ref, RootLink(u);
    PlugDistinct(c, s);
    assert u == s.left || u == s.right;
    assert m.Ptr? ==> m.ref in Refs(s) && m.ref != n;
    SplicedFacts(c, s, m, h);
    var h' := Spliced(c, m, h);
    assert Linked(Plug(c, u), Null, h') by {
      LinkedPlug(c, s, Null, h);
      Reparent(u, Ptr(n), Up(c, Null), h, h');
      Rehole(c, Ptr(n), m, Null, h, h');
      LinkedPlug(c, u, Null, h');
    }
    PlugRefs(c, s);
    PlugRefs(c, u);
    SizesRelinked(Plug(c, s), Plug(c, u), h, h', LinkSet(Up(c, Null)));
  }

  /**
   * Removal of a node `n` with two children whose left child `m` is the
   * predecessor: after `replaceNode(n, m)` and `m.setRightChild(n.right)`
   * the arena encodes the tree with `n` deleted, and only `m` and `n`'s
   * parent can break the local size rule.
   */
  lemma PredChildMoved(c: Ctx, s: Tree, h: Heap)
    requires s.Branch? && s.left.Branch? && s.right.Branch? && s.left.right.Empty?
    requires Encodes(Plug(c, s), h) && SizesOk(Plug(c, s), h, {})
    ensures var m := s.left.ref;
      && (c != [] ==> c[0].p in h)
      && m in h && s.right.ref in h
      && m in Spliced(c, Ptr(m), h)
      && var h2 := WithRight(Spliced(c, Ptr(m), h), m, Ptr(s.right.ref));
      && DeleteRoot(s) == Branch(s.left.left, m, s.left.key, s.right)
      && Linked(Plug(c, DeleteRoot(s)), Null, h2)
      && SizesOk(Plug(c, DeleteRoot(s)), h2, LinkSet(Up(c, Null)) + {m})
      && SizesKept(h, h2)
  {
    var n, m, e, R := s.ref, s.left.ref, s.left.left, s.right;
    var B := Branch(e, m, s.left.key, R);
    PlugDistinct(c, s);
    PlugRefs(c, s);
    assert m in Refs(s) && m != n && R.ref != m && R.ref in Refs(s);
    SplicedFacts(c, s, Ptr(m), h);
    var h1 := Spliced(c, Ptr(m), h);
    var h2 := WithRight(h1, m, Ptr(R.ref));
    WithChildKept(h1, m, Ptr(R.ref));
    KeptTrans(h, h1, h2, LinkSet(Up(c, Null)), {m}, LinkSet(Up(c, Null)) + {m});
    assert DeleteRoot(s) == B;
    assert Linked(Plug(c, B), Null, h2) by {
      OutsideTrans(h, h1, h2, LinkSet(Up(c, Null)) + {m}, {m} + {R.ref}, LinkSet(Up(c, Null)) + {m, R.ref});
      assert Refs(s) !! CtxRefs(c);
      assert c != [] ==> c[0].p != m && c[0].p != R.ref;
      PredChildLinked(c, s, h, h2);
    }
    assert SizesOk(Plug(c, B), h2, LinkSet(Up(c, Null)) + {m}) by {
      PlugRefs(c, B);
      SizesRelinked(Plug(c, s), Plug(c, B), h, h2, LinkSet(Up(c, Null)) + {m});
    }
  }

  /** The links of case 3a, for any arena that differs from `h` as `removeNode` makes it. */
  lemma PredChildLinked(c: Ctx, s: Tree, h: Heap, h2: Heap)
    requires s.Branch? && s.left.Branch? && s.right.Branch? && s.left.right.Empty?
    requires Linked(Plug(c, s), Null, h) && Distinct(Plug(c, s))
    requires var m, R := s.left.ref, s.right.ref;
      && KeptOutside(h, h2, LinkSet(Up(c, Null)) + {m, R})
      && m in h && m in h2 && h2[m] == h[m].(parent := Up(c, Null), right := Ptr(R))
      && R in h && R in h2 && h2[R] == h[R].(parent := Ptr(m))
      && (c != [] ==> c[0].p in h && c[0].p in h2 && h2[c[0].p] == SetHole(h[c[0].p], c[0], Ptr(m)))
    ensures Linked(Plug(c, Branch(s.left.left, s.left.ref, s.left.key, s.right)), Null, h2)
  {
    var n, m, e, R := s.ref, s.left.ref, s.left.left, s.right;
    LinkedPlug(c, s, Null, h);
    PlugDistinct(c, s);
    PlugRefs(c, s);
    var U := LinkSet(Up(c, Null)) + {m, R.ref};
    assert U !! Refs(e) by {
      assert Refs(e) <= Refs(s.left) - {m} && Refs(s.left) !! Refs(R);
    }
    KeptLinks(h, h2, U, Refs(e));
    LinkedFrame(e, Ptr(m), h, h2);
    KeptLinks(h, h2, U, Refs(R) - {R.ref});
    Reparent(R, Ptr(n), Ptr(m), h, h2);
    if c != [] {
      KeptLinks(h, h2, U, CtxRefs(c) - {c[0].p});
    }
    Rehole(c, Ptr(n), Ptr(m), Null, h, h2);
    LinkedPlug(c, Branch(e, m, s.left.key, R), Null, h2);
  }

  /**
   * The relinking of case 3b, in `removeNode`'s order: `replaceNode(n, m)`,
   * `m.setLeftChild(n.left)`, `m.setRightChild(n.right)` and
   * `opp.setRightChild(el)`, where `a` and `R` are the children of `n`, `opp`
   * is the parent of the predecessor `m` and `el` its left child.
   */
  ghost function DeepSpliced(c: Ctx, m: Ref, a: Ref, R: Ref, opp: Ref, el: Link, h: Heap): Heap
    requires c != [] ==> c[0].p in h
    requires {m, a, R, opp} <= h.Keys && (el.Ptr? ==> el.ref in h)
  {
    var h1 := Spliced(c, Ptr(m), h);
    WithRight(WithRight(WithLeft(h1, m, Ptr(a)), m, Ptr(R)), opp, el)
  }

  /** `DeepSpliced` keeps every size, and the links of every node it does not name. */
  lemma DeepSplicedKept(c: Ctx, m: Ref, a: Ref, R: Ref, opp: Ref, el: Link, h: Heap)
    requires c != [] ==> c[0].p in h && c[0].p != m
    requires {m, a, R, opp} <= h.Keys && (el.Ptr? ==> el.ref in h)
    ensures var h4 := DeepSpliced(c, m, a, R, opp, el, h);
      && SizesKept(h, h4) && ChildrenKept(h, h4, LinkSet(Up(c, Null)) + {m, opp})
      && KeptOutside(h, h4, LinkSet(Up(c, Null)) + {m, a, R, opp} + LinkSet(el))
  {
    var P := LinkSet(Up(c, Null));
    SplicedKept(c, Ptr(m), h);
    var h1 := Spliced(c, Ptr(m), h);
    var h2 := WithLeft(h1, m, Ptr(a));
    var h3 := WithRight(h2, m, Ptr(R));
    WithChildKept(h1, m, Ptr(a));
    WithChildKept(h2, m, Ptr(R));
    WithChildKept(h3, opp, el);
    var K, O := P + {m, opp}, P + {m, a, R, opp} + LinkSet(el);
    KeptTrans(h, h1, h2, P, {m}, K);
    KeptTrans(h, h2, h3, K, {m}, K);
    KeptTrans(h, h3, WithRight(h3, opp, el), K, {opp}, K);
    OutsideTrans(h, h1, h2, P + {m}, {m, a}, O);
    OutsideTrans(h, h2, h3, O, {m, R}, O);
    OutsideTrans(h, h3, WithRight(h3, opp, el), O, {opp} + LinkSet(el), O);
  }

  /**
   * The nodes that case 3b relinks, as `DeepSpliced` leaves them: `m` has
   * `n`'s parent and children, `R` and `a` hang below `m`, `el` below `opp`,
   * and `n`'s parent points at `m`.
   */
  ghost predicate DeepMoved(c: Ctx, m: Ref, a: Ref, R: Ref, opp: Ref, el: Link, h: Heap, h4: Heap)
  {
    && {m, a, R, opp} <= h.Keys && {m, a, R, opp} <= h4.Keys
    && (el.Ptr? ==> el.ref in h && el.ref in h4)
    && (c != [] ==> c[0].p in h && c[0].p in h4)
    && h4[m] == h[m].(parent := Up(c, Null), left := Ptr(a), right := Ptr(R))
    && h4[R] == h[R].(parent := Ptr(m))
    && (a != opp ==> h4[a] == h[a].(parent := Ptr(m)) && h4[opp] == h[opp].(right := el))
    && (a == opp ==> h4[a] == h[a].(parent := Ptr(m), right := el))
    && (el.Ptr? ==> h4[el.ref] == h[el.ref].(parent := Ptr(opp)))
    && (c != [] ==> h4[c[0].p] == SetHole(h[c[0].p], c[0], Ptr(m)))
  }

  /** What `DeepSpliced` does to the nodes it names. */
  lemma DeepSplicedPoints(c: Ctx, m: Ref, a: Ref, R: Ref, opp: Ref, el: Link, h: Heap)
    requires DeepNames(c, m, a, R, opp, el, h)
    ensures DeepMoved(c, m, a, R, opp, el, h, DeepSpliced(c, m, a, R, opp, el, h))
  {
    SplicedKept(c, Ptr(m), h);
    var h1 := Spliced(c, Ptr(m), h);
    var h2 := WithLeft(h1, m, Ptr(a));
    var h3 := WithRight(h2, m, Ptr(R));
    var h4 := WithRight(h3, opp, el);
    assert h1[a] == h[a] && h1[R] == h[R] && h1[opp] == h[opp];
    assert h2[m] == h1[m].(left := Ptr(a)) && h2[a] == h[a].(parent := Ptr(m)) && h2[R] == h[R];
    assert h3[m] == h2[m].(right := Ptr(R)) && h3[R] == h[R].(parent := Ptr(m)) && h3[a] == h2[a];
    assert h4[m] == h3[m] && h4[R] == h3[R] && h4[opp] == h3[opp].(right := el);
    assert a != opp ==> h4[a] == h3[a] && h3[opp] == h[opp];
    if el.Ptr? {
      assert h1[el.ref] == h[el.ref] && h3[el.ref] == h[el.ref];
    }
    if c != [] {
      var p := c[0].p;
      assert h4[p] == h3[p] && h3[p] == h1[p];
    }
  }

  /**
   * The links of case 3b along the path `d` from `a`, the left child of the
   * deleted node, down to `opp`, the parent of the predecessor `m`: `a` now
   * hangs below `m`, and `m`'s left subtree `e` below `opp`.
   */
  lemma PredDeepPath(d: Ctx, e: Tree, m: Ref, mk: int, top: Link, h: Heap, h4: Heap)
    requires d != [] && d[0].RightHole?
    requires Linked(Plug(d, Branch(e, m, mk, Empty)), top, h) && Distinct(Plug(d, Branch(e, m, mk, Empty)))
    requires var a, opp := d[|d| - 1].p, d[0].p;
      && a in h && opp in h && a in h4 && opp in h4
      && SameLinks(h, h4, (CtxRefs(d) + Refs(e)) - {a, opp} - LinkSet(RootLink(e)))
      && (a != opp ==> LinksOf(h4[a]) == LinksOf(h[a].(parent := Ptr(m))))
      && (a != opp ==> LinksOf(h4[opp]) == LinksOf(h[opp].(right := RootLink(e))))
      && (a == opp ==> LinksOf(h4[a]) == LinksOf(h[a].(parent := Ptr(m), right := RootLink(e))))
      && (e.Branch? ==> e.ref in h && e.ref in h4 && LinksOf(h4[e.ref]) == LinksOf(h[e.ref].(parent := Ptr(opp))))
    ensures Linked(Plug(d, e), Ptr(m), h4)
  {
    var a, opp := d[|d| - 1].p, d[0].p;
    var b := Branch(e, m, mk, Empty);
    LinkedPlug(d, b, top, h);
    PlugDistinct(d, b);
    OutermostRef(d);
    assert opp in CtxRefs(d);
    var hm := h[a := h[a].(parent := Ptr(m))];
    Retop(d, Ptr(m), top, Ptr(m), h, hm);
    assert SameLinks(hm, h4, CtxRefs(d) - {opp}) by {
      assert Refs(e) !! CtxRefs(d);
    }
    Rehole(d, Ptr(m), RootLink(e), Ptr(m), hm, h4);
    Reparent(e, Ptr(m), Ptr(opp), h, h4);
    LinkedPlug(d, e, Ptr(m), h4);
  }

  /**
   * Case 3b: `s` is the subtree of the deleted node `n` at the hole of `c`,
   * with children `a` and `R`; the predecessor `m` splits from the left
   * subtree as the path `d`, whose innermost node is `opp`, and `m`'s left
   * subtree `e` with root `el`. The arena `h4` differs from `h` as
   * `DeepSpliced` makes it.
   */
  ghost predicate DeepCase(c: Ctx, s: Tree, d: Ctx, e: Tree, m: Ref, mk: int, h: Heap, h4: Heap,
                        a: Ref, R: Ref, opp: Ref, el: Link)
  {
    && s.Branch? && s.left.Branch? && s.right.Branch?
    && SplitMax(s.left) == (d, e, m, mk) && d != []
    && a == s.left.ref && R == s.right.ref && opp == d[0].p && el == RootLink(e)
    && Linked(Plug(c, s), Null, h) && Distinct(Plug(c, s))
    && KeptOutside(h, h4, LinkSet(Up(c, Null)) + {m, a, R, opp} + LinkSet(el))
    && DeepMoved(c, m, a, R, opp, el, h, h4)
  }

  /** The links of case 3b: `m` takes the place of `n`, with `n`'s children. */
  lemma PredDeepLinked(c: Ctx, s: Tree, d: Ctx, e: Tree, m: Ref, mk: int, h: Heap, h4: Heap,
                 a: Ref, R: Ref, opp: Ref, el: Link)
    requires DeepCase(c, s, d, e, m, mk, h, h4, a, R, opp, el)
    ensures Linked(Plug(c, Branch(Plug(d, e), m, mk, s.right)), Null, h4)
  {
    DeepLeftLinked(c, s, d, e, m, mk, h, h4, a, R, opp, el);
    DeepRightLinked(c, s, d, e, m, mk, h, h4, a, R, opp, el);
    DeepAboveLinked(c, s, d, e, m, mk, h, h4, a, R, opp, el);
    JoinLinked(c, Plug(d, e), m, mk, s.right, h4);
  }

  /** `a`, with the path down to `opp` and `m`'s old left subtree, hangs below `m`. */
  lemma DeepLeftLinked(c: Ctx, s: Tree, d: Ctx, e: Tree, m: Ref, mk: int, h: Heap, h4: Heap,
                 a: Ref, R: Ref, opp: Ref, el: Link)
    requires DeepCase(c, s, d, e, m, mk, h, h4, a, R, opp, el)
    ensures Linked(Plug(d, e), Ptr(m), h4) && h4[m].key == mk && h4[m].left == RootLink(Plug(d, e))
  {
    var U := LinkSet(Up(c, Null)) + {m, a, R, opp} + LinkSet(el);
    var b := Branch(e, m, mk, Empty);
    LinkedPlug(c, s, Null, h);
    PlugDistinct(c, s);
    PlugRefs(c, s);
    PlugTop(d, b);
    PlugTop(d, e);
    PlugRefs(d, b);
    PlugDistinct(d, b);
    OutermostRef(d);
    assert opp in CtxRefs(d);
    assert U !! (CtxRefs(d) + Refs(e)) - {a, opp} - LinkSet(el);
    KeptLinks(h, h4, U, (CtxRefs(d) + Refs(e)) - {a, opp} - LinkSet(el));
    PredDeepLower(d, e, m, mk, Ptr(s.ref), h, h4, c, a, R, opp, el);
  }

  /** `n`'s right subtree hangs below `m`. */
  lemma DeepRightLinked(c: Ctx, s: Tree, d: Ctx, e: Tree, m: Ref, mk: int, h: Heap, h4: Heap,
                  a: Ref, R: Ref, opp: Ref, el: Link)
    requires DeepCase(c, s, d, e, m, mk, h, h4, a, R, opp, el)
    ensures Linked(s.right, Ptr(m), h4)
  {
    var U := LinkSet(Up(c, Null)) + {m, a, R, opp} + LinkSet(el);
    var b := Branch(e, m, mk, Empty);
    LinkedPlug(c, s, Null, h);
    PlugDistinct(c, s);
    PlugRefs(c, s);
    PlugRefs(d, b);
    OutermostRef(d);
    assert {m, a, opp} + LinkSet(el) <= Refs(s.left);
    KeptLinks(h, h4, U, Refs(s.right) - {R});
    Reparent(s.right, Ptr(s.ref), Ptr(m), h, h4);
  }

  /** The path above `n` now holds `m` in its hole. */
  lemma DeepAboveLinked(c: Ctx, s: Tree, d: Ctx, e: Tree, m: Ref, mk: int, h: Heap, h4: Heap,
                  a: Ref, R: Ref, opp: Ref, el: Link)
    requires DeepCase(c, s, d, e, m, mk, h, h4, a, R, opp, el)
    ensures CtxLinked(c, Ptr(m), Null, h4)
  {
    var U := LinkSet(Up(c, Null)) + {m, a, R, opp} + LinkSet(el);
    var b := Branch(e, m, mk, Empty);
    LinkedPlug(c, s, Null, h);
    PlugDistinct(c, s);
    PlugRefs(c, s);
    PlugRefs(d, b);
    OutermostRef(d);
    assert {m, a, opp} + LinkSet(el) <= Refs(s.left);
    if c != [] {
      KeptLinks(h, h4, U, CtxRefs(c) - {c[0].p});
    }
    Rehole(c, Ptr(s.ref), Ptr(m), Null, h, h4);
  }

  /** The left subtree of case 3b: the path `d` with `m`'s old left subtree `e` in its hole. */
  lemma PredDeepLower(d: Ctx, e: Tree, m: Ref, mk: int, top: Link, h: Heap, h4: Heap,
                      c: Ctx, a: Ref, R: Ref, opp: Ref, el: Link)
    requires d != [] && d[0].RightHole? && a == d[|d| - 1].p && opp == d[0].p && el == RootLink(e)
    requires Linked(Plug(d, Branch(e, m, mk, Empty)), top, h) && Distinct(Plug(d, Branch(e, m, mk, Empty)))
    requires SameLinks(h, h4, (CtxRefs(d) + Refs(e)) - {a, opp} - LinkSet(el))
    requires DeepMoved(c, m, a, R, opp, el, h, h4)
    ensures Linked(Plug(d, e), Ptr(m), h4) && h4[m].key == mk
  {
    var b := Branch(e, m, mk, Empty);
    LinkedPlug(d, b, top, h);
    PlugDistinct(d, b);
    PlugRefs(d, b);
    PredDeepPath(d, e, m, mk, top, h, h4);
  }

  /** The nodes that case 3b names are allocated and pairwise distinct where it matters. */
  lemma DeepReady(c: Ctx, s: Tree, h: Heap)
    requires s.Branch? && s.left.Branch? && s.right.Branch? && s.left.right.Branch?
    requires Encodes(Plug(c, s), h)
    ensures var (d, e, m, mk) := SplitMax(s.left);
      && d != [] && (c != [] ==> c[0].p in h)
      && DeepNames(c, m, s.left.ref, s.right.ref, d[0].p, RootLink(e), h)
      && DeleteRoot(s) == Branch(Plug(d, e), m, mk, s.right)
      && Refs(DeleteRoot(s)) == Refs(s) - {s.ref}
  {
    var (d, e, m, mk) := SplitMax(s.left);
    var b := Branch(e, m, mk, Empty);
    var a, R, opp, el := s.left.ref, s.right.ref, d[0].p, RootLink(e);
    LinkedPlug(c, s, Null, h);
    PlugDistinct(c, s);
    PlugRefs(c, s);
    PlugTop(d, b);
    PlugRefs(d, b);
    PlugRefs(d, e);
    PlugDistinct(d, b);
    OutermostRef(d);
    assert opp in CtxRefs(d);
    assert {m, a, opp} + LinkSet(el) <= Refs(s.left);
    DeleteRootContents(s);
    if c != [] {
      assert c[0].p in CtxRefs(c);
    }
  }

  /** The preconditions of `DeepSplicedPoints`. */
  ghost predicate DeepNames(c: Ctx, m: Ref, a: Ref, R: Ref, opp: Ref, el: Link, h: Heap)
  {
    && (c != [] ==> c[0].p in h)
    && {m, a, R, opp} <= h.Keys && (el.Ptr? ==> el.ref in h)
    && LinkSet(Up(c, Null)) !! {m, a, R, opp}
    && LinkSet(el) !! {m, a, R, opp} + LinkSet(Up(c, Null))
    && m != a && m != R && m != opp && R != a && R != opp
  }

  /**
   * Removal of a node `n` with two children whose predecessor `m` lies
   * deeper in the left subtree, below `opp`: after `DeepSpliced` the arena
   * encodes the tree with `n` deleted, and only `m`, `opp` and `n`'s parent
   * can break the local size rule.
   */
  lemma PredDeepMoved(c: Ctx, s: Tree, h: Heap)
    requires s.Branch? && s.left.Branch? && s.right.Branch? && s.left.right.Branch?
    requires Encodes(Plug(c, s), h) && SizesOk(Plug(c, s), h, {})
    ensures var (d, e, m, mk) := SplitMax(s.left);
      && d != [] && DeepNames(c, m, s.left.ref, s.right.ref, d[0].p, RootLink(e), h)
      && var h4 := DeepSpliced(c, m, s.left.ref, s.right.ref, d[0].p, RootLink(e), h);
      && DeleteRoot(s) == Branch(Plug(d, e), m, mk, s.right)
      && Linked(Plug(c, DeleteRoot(s)), Null, h4)
      && SizesOk(Plug(c, DeleteRoot(s)), h4, LinkSet(Up(c, Null)) + {m, d[0].p})
      && SizesKept(h, h4)
  {
    var (d, e, m, mk) := SplitMax(s.left);
    var a, R, opp, el := s.left.ref, s.right.ref, d[0].p, RootLink(e);
    DeepReady(c, s, h);
    var h4 := DeepSpliced(c, m, a, R, opp, el, h);
    DeepSplicedKept(c, m, a, R, opp, el, h);
    DeepSplicedPoints(c, m, a, R, opp, el, h);
    PredDeepLinked(c, s, d, e, m, mk, h, h4, a, R, opp, el);
    PlugRefs(c, s);
    PlugRefs(c, DeleteRoot(s));
    SizesRelinked(Plug(c, s), Plug(c, DeleteRoot(s)), h, h4, LinkSet(Up(c, Null)) + {m, opp});
  }

  /** The hole of `c` holds the root exactly when `c` is the empty path. */
  lemma RootIsHole(c: Ctx, s: Tree)
    requires s.Branch? && Distinct(Plug(c, s))
    ensures RootLink(Plug(c, s)) == Ptr(s.ref) <==> c == []
    ensures c != [] ==> c[0].p !in Refs(s)
  {
    if c != [] {
      PlugTop(c, s);
      OutermostRef(c);
      PlugDistinct(c, s);
    }
  }

  /**
   * Where `maximumLeaf` of the left subtree lands: the predecessor `m` has
   * no right child, its left subtree is `e`, and its parent is the removed
   * node exactly when it is that node's left child, otherwise `opp`.
   */
  lemma PredLinks(c: Ctx, s: Tree, h: Heap)
    requires s.Branch? && s.left.Branch? && Encodes(Plug(c, s), h)
    ensures var (d, e, m, mk) := SplitMax(s.left);
      && m in h && h[m].left == RootLink(e) && h[m].right == Null
      && (d == [] <==> s.left.right.Empty?)
      && (d == [] ==> m == s.left.ref && h[m].parent == Ptr(s.ref))
      && (d != [] ==> h[m].parent == Ptr(d[0].p) && d[0].p != s.ref)
  {
    var (d, e, m, mk) := SplitMax(s.left);
    var b := Branch(e, m, mk, Empty);
    LinkedPlug(c, s, Null, h);
    PlugDistinct(c, s);
    LinkedPlug(d, b, Ptr(s.ref), h);
    if d != [] {
      PlugRefs(d, b);
      assert d[0].p in CtxRefs(d);
    }
  }

  /** After unlinking, `h'` encodes `t` over the same nodes, with the size rule broken only in `S`. */
  ghost predicate Removed(t: Tree, h: Heap, h': Heap, S: set<Ref>)
  {
    Encodes(t, h') && h'.Keys == h.Keys && SizesOk(t, h', S)
  }

  /** Cases 1 and 2 of `removeNode`, as `replaceNode(n, u)` leaves the arena. */
  lemma OneChildRemoved(c: Ctx, s: Tree, h: Heap)
    requires s.Branch? && Encodes(Plug(c, s), h) && SizesOk(Plug(c, s), h, {})
    requires s.left.Empty? || s.right.Empty?
    ensures var u := DeleteRoot(s);
      && (c != [] ==> c[0].p in h) && s.ref in h && (u.Branch? ==> u.ref in h)
      && u == (if s.left.Empty? then s.right else s.left)
      && (u.Branch? ==> u.ref in Refs(s) && u.ref != s.ref)
      && var h' := Spliced(c, RootLink(u), h);
      && Removed(Plug(c, u), h, h', LinkSet(Up(c, Null))) && h'[s.ref] == h[s.ref]
  {
    var u := DeleteRoot(s);
    var m := RootLink(u);
    AtHole(c, s, h);
    assert (c != [] ==> c[0].p in h) && (u.Branch? ==> u.ref in h) by {
      SplicedChild(c, s, h);
    }
    var h' := Spliced(c, m, h);
    assert Linked(Plug(c, u), Null, h') && SizesOk(Plug(c, u), h', LinkSet(Up(c, Null))) && h'.Keys == h.Keys by {
      SplicedChild(c, s, h);
    }
    assert Distinct(Plug(c, u)) && Bst(Plug(c, u)) && Refs(Plug(c, u)) <= h.Keys by {
      RemovedFacts(c, s);
    }
    assert u.Branch? ==> u.ref in Refs(s) && u.ref != s.ref by {
      PlugDistinct(c, s);
    }
    assert h'[s.ref] == h[s.ref] by {
      PlugDistinct(c, s);
      RootIsHole(c, s);
      SplicedFacts(c, s, m, h);
      assert s.ref !in LinkSet(Up(c, Null)) + LinkSet(m);
    }
  }

  /** Case 3a of `removeNode`, as its relinking leaves the arena. */
  lemma PredChildRemoved(c: Ctx, s: Tree, h: Heap)
    requires s.Branch? && s.left.Branch? && s.right.Branch? && s.left.right.Empty?
    requires Encodes(Plug(c, s), h) && SizesOk(Plug(c, s), h, {})
    ensures var m := s.left.ref;
      && (c != [] ==> c[0].p in h) && m in h && s.right.ref in h && s.ref in h
      && m in Refs(s) && m != s.ref
      && var h1 := Spliced(c, Ptr(m), h);
      && h1[s.ref] == h[s.ref] && DeleteRoot(s).Branch? && DeleteRoot(s).ref == m
      && Removed(Plug(c, DeleteRoot(s)), h, WithRight(h1, m, Ptr(s.right.ref)), LinkSet(Up(c, Null)) + {m})
  {
    var m, t := s.left.ref, Plug(c, DeleteRoot(s));
    AtHole(c, s, h);
    assert (c != [] ==> c[0].p in h) && m in h && s.right.ref in h && m in Spliced(c, Ptr(m), h) by {
      PredChildMoved(c, s, h);
    }
    var h1 := Spliced(c, Ptr(m), h);
    var h2 := WithRight(h1, m, Ptr(s.right.ref));
    assert DeleteRoot(s).Branch? && DeleteRoot(s).ref == m && Linked(t, Null, h2) by {
      PredChildMoved(c, s, h);
    }
    assert SizesOk(t, h2, LinkSet(Up(c, Null)) + {m}) && h2.Keys == h.Keys by {
      PredChildMoved(c, s, h);
    }
    assert Distinct(t) && Bst(t) && Refs(t) <= h.Keys by {
      RemovedFacts(c, s);
    }
    assert m in Refs(s) && m != s.ref by {
      PlugDistinct(c, s);
    }
    assert h1[s.ref] == h[s.ref] by {
      PlugDistinct(c, s);
      RootIsHole(c, s);
      SplicedFacts(c, s, Ptr(m), h);
      assert s.ref !in LinkSet(Up(c, Null)) + LinkSet(Ptr(m));
    }
  }

  /** Case 3b of `removeNode`, as its relinking leaves the arena. */
  lemma PredDeepRemoved(c: Ctx, s: Tree, h: Heap)
    requires s.Branch? && s.left.Branch? && s.right.Branch? && s.left.right.Branch?
    requires Encodes(Plug(c, s), h) && SizesOk(Plug(c, s), h, {})
    ensures var (d, e, m, mk) := SplitMax(s.left);
      && d != [] && DeepNames(c, m, s.left.ref, s.right.ref, d[0].p, RootLink(e), h) && s.ref in h
      && m in Refs(s) && m != s.ref
      && var h1 := Spliced(c, Ptr(m), h);
      && h1[s.ref] == h[s.ref] && WithLeft(h1, m, Ptr(s.left.ref))[s.ref] == h[s.ref]
      && Removed(Plug(c, DeleteRoot(s)), h, DeepSpliced(c, m, s.left.ref, s.right.ref, d[0].p, RootLink(e), h),
                 LinkSet(Up(c, Null)) + {m, d[0].p})
  {
    var (d, e, m, mk) := SplitMax(s.left);
    var t := Plug(c, DeleteRoot(s));
    var a, R, opp, el := s.left.ref, s.right.ref, d[0].p, RootLink(e);
    AtHole(c, s, h);
    assert d != [] && DeepNames(c, m, a, R, opp, el, h) by {
      PredDeepMoved(c, s, h);
    }
    var h4 := DeepSpliced(c, m, a, R, opp, el, h);
    assert Linked(t, Null, h4) && SizesOk(t, h4, LinkSet(Up(c, Null)) + {m, opp}) && h4.Keys == h.Keys by {
      PredDeepMoved(c, s, h);
    }
    assert Distinct(t) && Bst(t) && Refs(t) <= h.Keys by {
      RemovedFacts(c, s);
    }
    DeepKeepsRoot(c, s, h);
  }

  /** Case 3b's first two relinkings leave the removed node's own slot alone. */
  lemma DeepKeepsRoot(c: Ctx, s: Tree, h: Heap)
    requires s.Branch? && s.left.Branch? && s.left.right.Branch?
    requires Encodes(Plug(c, s), h)
    ensures var m := SplitMax(s.left).2;
      && s.ref in h && m in h && s.left.ref in h && (c != [] ==> c[0].p in h)
      && m in Refs(s) && m != s.ref
      && var h1 := Spliced(c, Ptr(m), h);
      && h1[s.ref] == h[s.ref] && WithLeft(h1, m, Ptr(s.left.ref))[s.ref] == h[s.ref]
  {
    var (d, e, m, mk) := SplitMax(s.left);
    var a := s.left.ref;
    AtHole(c, s, h);
    assert m in Refs(s) && m != s.ref && a != s.ref by {
      PlugDistinct(c, s);
      PlugRefs(d, Branch(e, m, mk, Empty));
      assert m in Refs(s.left);
    }
    assert m in h && a in h && (c != [] ==> c[0].p in h) by {
      PlugRefs(c, s);
      if c != [] {
        assert c[0].p in CtxRefs(c);
      }
    }
    var h1 := Spliced(c, Ptr(m), h);
    assert h1[s.ref] == h[s.ref] && m in h1 by {
      PlugDistinct(c, s);
      RootIsHole(c, s);
      SplicedFacts(c, s, Ptr(m), h);
      assert s.ref !in LinkSet(Up(c, Null)) + LinkSet(Ptr(m));
    }
    assert WithLeft(h1, m, Ptr(a))[s.ref] == h1[s.ref];
  }
}
