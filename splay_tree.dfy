/**
 * `SplayTree`: a splay tree over unique `int` keys whose nodes carry the
 * size of their subtree. Nodes live in the arena `heap`; `root` and
 * `insertedNode` are node pointers; `nextRef` is the next unused handle, so
 * `new STNode(k)` is a fresh handle. The ghost `shape` is the tree the
 * arena encodes.
 */
module Splay {
  import opened Shape
  import opened Nodes
  import opened Rotations
  import Search
  import opened Insertion
  import opened Deletion
  import opened Removal
  import TestUtils

  class SplayTree {
    var heap: Heap
    var root: Link
    var insertedNode: Link
    var nextRef: Ref
    ghost var shape: Tree

    /**
     * The arena encodes `shape`, a binary search tree over distinct nodes;
     * every allocated handle is below `nextRef`.
     */
    ghost predicate Wf()
      reads this
    {
      Arena(shape, heap, nextRef)
    }

    /**
     * The invariant between operations: `root` points at the root of the
     * shape, the arena holds no other nodes, every subtree size is
     * `1 + size(left) + size(right)`, and no insertion is in progress.
     */
    ghost predicate Valid()
      reads this
    {
      && Wf() && root == RootLink(shape) && heap.Keys == Refs(shape)
      && SizesOk(shape, heap, {}) && insertedNode == Null
    }

    /** The set of keys stored in the tree. */
    ghost function Keys(): set<int>
      reads this
    {
      KeySet(shape)
    }

    /** An empty tree. */
    constructor ()
      ensures Valid() && shape == Empty && root == Null
    {
      heap := map[];
      root := Null;
      insertedNode := Null;
      nextRef := 0;
      shape := Empty;
    }

    method SetLeftChild(n: Ref, m: Link)
      requires n in heap && (m.Ptr? ==> m.ref in heap)
      modifies this`heap
      ensures heap == WithLeft(old(heap), n, m)
      ensures HashesKept(old(heap), heap)
      ensures insertedNode == old(insertedNode) && nextRef == old(nextRef)
    {
      heap := heap[n := heap[n].(left := m)];
      if m != Null {
        heap := heap[m.ref := heap[m.ref].(parent := Ptr(n))];
      }
    }

    method SetRightChild(n: Ref, m: Link)
      requires n in heap && (m.Ptr? ==> m.ref in heap)
      modifies this`heap
      ensures heap == WithRight(old(heap), n, m)
      ensures HashesKept(old(heap), heap)
      ensures insertedNode == old(insertedNode) && nextRef == old(nextRef)
    {
      heap := heap[n := heap[n].(right := m)];
      if m != Null {
        heap := heap[m.ref := heap[m.ref].(parent := Ptr(n))];
      }
    }

    /** Sets the size of `n` from the sizes of its children, an absent child counting 0. */
    method UpdateSizeFromChildren(n: Ref)
      requires n in heap
      requires heap[n].left.Ptr? ==> heap[n].left.ref in heap
      requires heap[n].right.Ptr? ==> heap[n].right.ref in heap
      modifies this`heap
      ensures heap == Resized(old(heap), n)
      ensures HashesKept(old(heap), heap)
      ensures insertedNode == old(insertedNode) && nextRef == old(nextRef)
    {
      var subtreeSize := 1;
      if heap[n].left != Null {
        subtreeSize := subtreeSize + heap[heap[n].left.ref].size;
      }
      if heap[n].right != Null {
        subtreeSize := subtreeSize + heap[heap[n].right.ref].size;
      }
      heap := heap[n := heap[n].(size := subtreeSize)];
    }

    /**
     * Recomputes the sizes on the path from `n` up to the root, in that
     * order; afterwards every node obeys the size rule, provided only nodes
     * on that path were out of date.
     */
    method UpdateSizeToRoot(n: Ref, ghost c: Ctx, ghost s: Tree)
      requires Wf() && shape == Plug(c, s) && SizeFixFrom(heap, n, c, s)
      modifies this`heap
      ensures Wf() && heap.Keys == old(heap).Keys && HashesKept(old(heap), heap)
      ensures SizesOk(shape, heap, {})
    {
      var cur := Ptr(n);
      ghost var cc, ss := c, s;
      while cur != Null
        invariant Wf() && heap.Keys == old(heap).Keys && HashesKept(old(heap), heap)
        invariant cur != Null ==> shape == Plug(cc, ss) && ss.Branch? && ss.ref == cur.ref
        invariant cur != Null ==> SizesOk(shape, heap, {cur.ref} + PathRefs(cc))
        invariant cur == Null ==> SizesOk(shape, heap, {})
        decreases |cc| + (if cur == Null then 0 else 1)
      {
        HoleFacts(cc, ss, heap);
        ghost var h0 := heap;
        UpdateSizeFromChildren(cur.ref);
        SizeToRootStep(cc, ss, h0, heap);
        cur := heap[cur.ref].parent;
        if cc != [] {
          assert PathRefs(cc) == {cc[0].p} + PathRefs(cc[1..]);
          ss := Fill(cc[0], ss);
          cc := cc[1..];
        }
      }
    }

    /** Right rotation of a left child `x` with its parent; otherwise nothing happens. */
    method RotateRight(x: Ref)
      requires x in heap && (heap[x].parent.Ptr? ==> heap[x].parent.ref in heap)
      requires heap[x].right.Ptr? ==> heap[x].right.ref in heap
      modifies this`heap
      ensures HashesKept(old(heap), heap)
      ensures !IsLeftChild(old(heap), x) ==> heap == old(heap)
      ensures IsLeftChild(old(heap), x) ==>
        var p := old(heap)[x].parent.ref;
        heap == WithRight(WithLeft(old(heap), p, old(heap)[x].right), x, Ptr(p))
    {
      if !IsLeftChild(heap, x) {
        return;
      }
      var b := heap[x].right;
      var p := heap[x].parent.ref;
      SetLeftChild(p, b);
      SetRightChild(x, Ptr(p));
    }

    /** Left rotation of a right child `x` with its parent; otherwise nothing happens. */
    method RotateLeft(x: Ref)
      requires x in heap && (heap[x].parent.Ptr? ==> heap[x].parent.ref in heap)
      requires heap[x].left.Ptr? ==> heap[x].left.ref in heap
      modifies this`heap
      ensures HashesKept(old(heap), heap)
      ensures !IsRightChild(old(heap), x) ==> heap == old(heap)
      ensures IsRightChild(old(heap), x) ==>
        var p := old(heap)[x].parent.ref;
        heap == WithLeft(WithRight(old(heap), p, old(heap)[x].left), x, Ptr(p))
    {
      if !IsRightChild(heap, x) {
        return;
      }
      var b := heap[x].left;
      var p := heap[x].parent.ref;
      SetRightChild(p, b);
      SetLeftChild(x, Ptr(p));
    }

    /**
     * Rotates `x` above its parent, keeping the in-order key sequence: the
     * shape becomes the one with `RotateUp` applied at `x`'s innermost
     * frame. The sizes of the parent and then `x` are recomputed, so a size
     * rule broken at `x`, its parent or its grandparent is broken at most at
     * `x`'s new parent afterwards, and nowhere if none was broken before.
     */
    method Rotate(x: Ref, ghost c: Ctx, ghost s: Tree, ghost S: set<Ref>)
      requires Arena(Plug(c, s), heap, nextRef) && s.Branch? && s.ref == x
      requires SizesOk(Plug(c, s), heap, S)
      modifies this`heap
      ensures heap.Keys == old(heap).Keys && HashesKept(old(heap), heap)
      ensures c == [] ==> heap == old(heap)
      ensures c != [] ==> forall q | q in old(heap) && q != x && q != c[0].p :: heap[q].size == old(heap)[q].size
      ensures c != [] ==> Arena(Plug(c[1..], RotateUp(c[0], s)), heap, nextRef)
      ensures c != [] ==> SizesOk(Plug(c[1..], RotateUp(c[0], s)), heap, StaleAfter(c, s, S))
      ensures c != [] ==> Inorder(Plug(c[1..], RotateUp(c[0], s))) == Inorder(Plug(c, s))
      ensures c != [] ==> Refs(Plug(c[1..], RotateUp(c[0], s))) == Refs(Plug(c, s))
    {
      Position(c, s, heap);
      if !HasParent(heap, x) {
        return;
      }
      ghost var h0 := heap;
      var p := RelinkUp(x, c, s);
      ghost var h2 := heap;
      RelinkChildren(c, s, h0, h2);
      UpdateSizeFromChildren(p);
      UpdateSizeFromChildren(x);
      Rotated(c, s, h0, h2, heap, S, nextRef);
    }

    /**
     * Splays `node` to the root by zig, zig-zig and zig-zag steps. The keys
     * keep their in-order sequence, the node set is unchanged, `node` ends up
     * at the root, and the size rule, which may be broken at the ancestors of
     * `node` on entry, holds everywhere on exit.
     */
    method Splay(node: Ref, ghost c: Ctx, ghost s: Tree)
      requires Wf() && shape == Plug(c, s) && s.Branch? && s.ref == node
      requires SizesOk(shape, heap, PathRefs(c))
      modifies this`heap, this`shape, this`root
      ensures Wf() && heap.Keys == old(heap).Keys
      ensures Inorder(shape) == Inorder(old(shape)) && Refs(shape) == Refs(old(shape))
      ensures shape.Branch? && shape.ref == node && shape.key == s.key && root == Ptr(node)
      ensures SizesOk(shape, heap, {})
      ensures HashesKept(old(heap), heap)
    {
      ghost var cc, ss, S := c, s, PathRefs(c);
      Position(cc, ss, heap);
      while HasParent(heap, node)
        invariant Arena(Plug(cc, ss), heap, nextRef) && heap.Keys == old(heap).Keys && HashesKept(old(heap), heap)
        invariant ss.Branch? && ss.ref == node && ss.key == s.key
        invariant S <= PathRefs(cc) && SizesOk(Plug(cc, ss), heap, S)
        invariant Inorder(Plug(cc, ss)) == Inorder(Plug(c, s)) && Refs(Plug(cc, ss)) == Refs(Plug(c, s))
        decreases |cc|
      {
        Position(cc, ss, heap);
        cc, ss, S := SplayStep(node, cc, ss, S);
      }
      Position(cc, ss, heap);
      shape := ss;
      root := Ptr(node);
    }

    /**
     * One step of the splay loop on `x`, which has a parent: a zig when the
     * parent is the root, otherwise a zig-zig (rotate the parent, then `x`)
     * or a zig-zag (rotate `x` twice). `x` moves up one or two levels, the
     * keys keep their in-order sequence, and the size rule stays broken at
     * most on `x`'s remaining ancestors.
     */
    method SplayStep(x: Ref, ghost c: Ctx, ghost s: Tree, ghost S: set<Ref>) returns (ghost c': Ctx, ghost s': Tree, ghost S': set<Ref>)
      requires Arena(Plug(c, s), heap, nextRef) && s.Branch? && s.ref == x && c != []
      requires S <= PathRefs(c) && SizesOk(Plug(c, s), heap, S)
      modifies this`heap
      ensures heap.Keys == old(heap).Keys && Arena(Plug(c', s'), heap, nextRef)
      ensures s'.Branch? && s'.ref == x && s'.key == s.key && |c'| < |c|
      ensures S' <= PathRefs(c') && SizesOk(Plug(c', s'), heap, S')
      ensures Inorder(Plug(c', s')) == Inorder(Plug(c, s)) && Refs(Plug(c', s')) == Refs(Plug(c, s))
      ensures |c| == 1 ==> c' == [] && s' == RotateUp(c[0], s)
      ensures |c| > 1 && c[0].LeftHole? == c[1].LeftHole? ==>
        c' == c[2..] && s' == RotateUp(c[0].(sibling := Fill(c[1], c[0].sibling)), s)
      ensures |c| > 1 && c[0].LeftHole? != c[1].LeftHole? ==>
        c' == c[2..] && s' == RotateUp(c[1], RotateUp(c[0], s))
      ensures HashesKept(old(heap), heap)
    {
      SplayStepDefined(c, s, heap);
      Position(c, s, heap);
      if !HasGrandP(heap, x) {
        Rotate(x, c, s, S);
        StaleAfterPath(c, s, S);
        S', s', c' := StaleAfter(c, s, S), RotateUp(c[0], s), c[1..];
      } else {
        var p := heap[x].parent.ref;
        if ZigZig(heap, x) {
          ghost var f := c[0].(sibling := Fill(c[1], c[0].sibling));
          ZigZigStep(c, s);
          Rotate(p, c[1..], Fill(c[0], s), S);
          ghost var S1 := StaleAfter(c[1..], Fill(c[0], s), S);
          StaleAfterPath(c[1..], Fill(c[0], s), S);
          Rotate(x, [f] + c[2..], s, S1);
          StaleAfterPath([f] + c[2..], s, S1);
          S', s', c' := StaleAfter([f] + c[2..], s, S1), RotateUp(f, s), c[2..];
        } else if ZigZag(heap, x) {
          Rotate(x, c, s, S);
          ghost var S1 := StaleAfter(c, s, S);
          StaleAfterPath(c, s, S);
          Rotate(x, c[1..], RotateUp(c[0], s), S1);
          StaleAfterPath(c[1..], RotateUp(c[0], s), S1);
          S', s', c' := StaleAfter(c[1..], RotateUp(c[0], s), S1), RotateUp(c[1], RotateUp(c[0], s)), c[2..];
        } else {
          assert false;
        }
      }
    }

    /**
     * `find(k)`: the node holding `k`, splayed to the root, or Null when no
     * node holds `k`, in which case nothing changes.
     */
    method Find(k: int) returns (n: Link)
      requires Valid()
      modifies this`heap, this`shape, this`root
      ensures Valid() && Keys() == old(Keys()) && Inorder(shape) == Inorder(old(shape))
      ensures n.Ptr? <==> k in old(Keys())
      ensures n.Ptr? ==> root == n && heap[n.ref].key == k
      ensures n.Null? ==> heap == old(heap) && shape == old(shape) && root == old(root)
      ensures HashesKept(old(heap), heap)
    {
      FindFromComplete(heap, k, shape);
      n := FindFrom(heap, root, k, shape);
      if n != Null {
        ghost var (c, s) := Locate(shape, n.ref);
        Position(c, s, heap);
        Splay(n.ref, c, s);
      }
    }

    /**
     * `insert(k)`: `k` must not be present yet. It is hung as a new leaf by
     * `_insert`, the root is marked parentless, and the new node is splayed
     * to the root.
     */
    method Insert(k: int)
      requires Valid() && k !in Keys()
      modifies this
      ensures Valid() && Keys() == old(Keys()) + {k}
      ensures Refs(shape) == Refs(old(shape)) + {old(nextRef)}
      ensures root == Ptr(old(nextRef)) && heap[root.ref].key == k
      ensures HashesKept(old(heap), heap)
    {
      FindFromComplete(heap, k, shape);
      var n := FindFrom(heap, root, k, shape);
      if n != Null {
        assert false;
      }
      ghost var c, s := HangLeaf(k);
      Splay(insertedNode.ref, c, s);
      insertedNode := Null;
    }

    /**
     * The first half of `insert(k)`: `_insert` hangs `k` as a new leaf on
     * the fresh handle `nextRef`, recorded in `insertedNode`, and the root is
     * marked parentless. The new leaf sits at the hole of `c`.
     */
    method HangLeaf(k: int) returns (ghost c: Ctx, ghost s: Tree)
      requires Valid() && k !in Keys()
      modifies this`heap, this`root, this`insertedNode, this`nextRef, this`shape
      ensures Wf() && shape == Plug(c, s) && s.Branch? && s.ref == old(nextRef) && s.key == k
      ensures insertedNode == Ptr(old(nextRef)) && SizesOk(shape, heap, {})
      ensures heap.Keys == Refs(shape) == Refs(old(shape)) + {old(nextRef)}
      ensures Keys() == old(Keys()) + {k}
      ensures HashesKept(old(heap), heap)
    {
      ghost var t, m := shape, nextRef;
      ghost var h0 := heap;
      InsertReady(t, k, m, heap);
      root := InsertAt(root, k, shape, Null);
      InsertDone(t, k, m, h0, heap);
      heap := heap[root.ref := heap[root.ref].(parent := Null)];
      ghost var cs := Locate(Search.BstInsert(t, k, m), m);
      c, s := cs.0, cs.1;
      Position(c, s, heap);
      shape := Plug(c, s);
    }

    /**
     * `_insert(node, k)`: hangs `k` as a new leaf below `node`, the root of
     * the subtree `t`, recomputes the sizes on the way back up, and returns
     * the subtree's root; the new node is recorded in `insertedNode`.
     */
    method InsertAt(node: Link, k: int, ghost t: Tree, ghost par: Link) returns (r: Link)
      requires InsertableAt(t, par, k, nextRef, heap) && node == RootLink(t)
      modifies this`heap, this`insertedNode, this`nextRef
      ensures Inserted(t, par, k, old(nextRef), old(heap), heap)
      ensures r == RootLink(Search.BstInsert(t, k, old(nextRef)))
      ensures nextRef == old(nextRef) + 1 && insertedNode == Ptr(old(nextRef))
      decreases t
      ensures HashesKept(old(heap), heap)
    {
      if node == Null {
        var newNode := nextRef;
        InsertedLeaf(par, k, newNode, heap);
        heap := heap[newNode := NewNode(k)];
        nextRef := nextRef + 1;
        insertedNode := Ptr(newNode);
        return Ptr(newNode);
      }
      var x := node.ref;
      ghost var h0, m := heap, nextRef;
      ghost var h1: Heap;
      InsertDescend(t, par, k, m, h0);
      if k < heap[x].key {
        var sub := InsertAt(heap[x].left, k, t.left, Ptr(x));
        h1 := heap;
        SetLeftChild(x, sub);
      } else if k > heap[x].key {
        var sub := InsertAt(heap[x].right, k, t.right, Ptr(x));
        h1 := heap;
        SetRightChild(x, sub);
      } else {
        assert false;
      }
      UpdateSizeFromChildren(x);
      InsertedBelow(t, par, k, m, h0, h1, heap);
      r := node;
    }

    /**
     * `replaceNode(n, m)` for the node `n` at the hole of `c`: `n`'s parent
     * slot (or `root`, when `n` is the root) now holds `m`, and `m` records
     * `n`'s parent as its own; `n` itself is untouched.
     */
    method ReplaceNode(n: Ref, m: Link, ghost c: Ctx, ghost s: Tree)
      requires Encodes(Plug(c, s), heap) && s.Branch? && s.ref == n && root == RootLink(Plug(c, s))
      requires m.Ptr? ==> m.ref in Refs(s) && m.ref != n
      modifies this`heap, this`root
      ensures c != [] ==> c[0].p in old(heap)
      ensures m.Ptr? ==> m.ref in old(heap)
      ensures heap == Spliced(c, m, old(heap))
      ensures root == if c == [] then m else old(root)
      ensures HashesKept(old(heap), heap)
    {
      SplicedFacts(c, s, m, heap);
      Position(c, s, heap);
      RootIsHole(c, s);
      if root == Ptr(n) {
        root := m;
      }
      if IsLeftChild(heap, n) {
        SetLeftChild(heap[n].parent.ref, m);
      } else if IsRightChild(heap, n) {
        SetRightChild(heap[n].parent.ref, m);
      }
      if m != Null {
        heap := heap[m.ref := heap[m.ref].(parent := heap[n].parent)];
      }
    }

    /**
     * `removeNode(node)` for the node at the hole of `c`: the node is
     * unlinked (replaced by its only child, or by its in-order predecessor),
     * the sizes it leaves out of date are recomputed, and the node that was
     * its parent (or the predecessor, or the predecessor's old parent) is
     * splayed. The removed node stays allocated, outside the tree.
     */
    method RemoveNode(node: Ref, ghost c: Ctx, ghost s: Tree)
      requires Valid() && shape == Plug(c, s) && s.Branch? && s.ref == node
      modifies this`heap, this`shape, this`root
      ensures Wf() && root == RootLink(shape) && heap.Keys == old(heap).Keys
      ensures SizesOk(shape, heap, {})
      ensures Inorder(shape) == Inorder(Plug(c, DeleteRoot(s)))
      ensures Refs(shape) == Refs(old(shape)) - {node}
      ensures HashesKept(old(heap), heap)
    {
      RemovedFacts(c, s);
      AtHole(c, s, heap);
      var nodeToSplay := heap[node].parent;
      ghost var sc: Ctx, ss: Tree;
      if heap[node].left == Null {
        sc, ss := SpliceOut(node, heap[node].right, c, s);
        shape := Plug(sc, ss);
      } else if heap[node].right == Null {
        sc, ss := SpliceOut(node, heap[node].left, c, s);
        shape := Plug(sc, ss);
      } else {
        SubtreeHangs(c, s, heap);
        HangsChildren(s, heap);
        PredLinks(c, s, heap);
        var pred := MaximumLeaf(heap, heap[node].left.ref, s.left);
        if heap[pred].parent == Ptr(node) {
          nodeToSplay := Ptr(pred);
          sc, ss := PromotePredecessor(node, pred, c, s);
        } else {
          var opp;
          opp, sc, ss := PromoteDeepPredecessor(node, pred, c, s);
          nodeToSplay := Ptr(opp);
        }
        shape := Plug(sc, ss);
        UpdateSizeToRoot(nodeToSplay.ref, sc, ss);
        SizesOkWeaken(shape, heap, {}, PathRefs(sc));
      }
      if nodeToSplay != Null {
        Splay(nodeToSplay.ref, sc, ss);
      }
    }

    /**
     * `remove(k)`: finds the node holding `k` without splaying; when there is
     * none nothing changes. Otherwise the node is removed by `removeNode`,
     * which splays the node it names, and the detached node is freed.
     */
    method Remove(k: int)
      requires Valid()
      modifies this`heap, this`shape, this`root
      ensures Valid() && Keys() == old(Keys()) - {k}
      ensures Size(shape) == if k in old(Keys()) then Size(old(shape)) - 1 else Size(old(shape))
      ensures k !in old(Keys()) ==> heap == old(heap) && shape == old(shape) && root == old(root)
      ensures HashesKept(old(heap), heap)
    {
      FindFromComplete(heap, k, shape);
      var node := FindFrom(heap, root, k, shape);
      if node == Null {
        return;
      }
      ghost var (c, s) := Locate(shape, node.ref);
      Position(c, s, heap);
      RemoveFound(node.ref, c, s);
    }

    /** The hit branch of `remove`: `removeNode`, then the node is freed. */
    method RemoveFound(node: Ref, ghost c: Ctx, ghost s: Tree)
      requires Valid() && shape == Plug(c, s) && s.Branch? && s.ref == node
      modifies this`heap, this`shape, this`root
      ensures Valid() && Keys() == old(Keys()) - {s.key} && Size(shape) == Size(old(shape)) - 1
      ensures HashesKept(old(heap), heap)
    {
      RemovedFacts(c, s);
      PlugRefs(c, s);
      RemoveNode(node, c, s);
      SameInorder(shape, Plug(c, DeleteRoot(s)));
      Free(node, shape);
    }

    /**
     * The end of `remove`: the detached node's child links are cleared and
     * the node is freed; the tree, which does not contain it, is unaffected.
     */
    method Free(n: Ref, ghost t: Tree)
      requires Arena(t, heap, nextRef) && SizesOk(t, heap, {}) && heap.Keys == Refs(t) + {n} && n !in Refs(t)
      modifies this`heap
      ensures Arena(t, heap, nextRef) && SizesOk(t, heap, {}) && heap.Keys == Refs(t)
      ensures HashesKept(old(heap), heap)
    {
      ghost var h0 := heap;
      Freed(t, h0, n, nextRef);
      heap := heap[n := heap[n].(left := Null, right := Null)];
      heap := heap - {n};
      assert heap == h0 - {n};
    }

    /** `swapNodeValues(n, m)`: exchanges the keys of `n` and `m`. */
    method SwapNodeValues(n: Ref, m: Ref)
      requires n in heap && m in heap
      modifies this`heap
      ensures heap == KeysSwapped(old(heap), n, m)
      ensures HashesKept(old(heap), heap)
    {
      var t := heap[n].key;
      heap := heap[n := heap[n].(key := heap[m].key)];
      heap := heap[m := heap[m].(key := t)];
    }

    /**
     * Cases 1 and 2 of `removeNode`: `node` has at most one child, `child`,
     * which takes its place; the size of `node`'s parent is recomputed.
     * Afterwards the arena encodes the tree without `node`, seen as `sc`
     * around the subtree `ss` rooted at that parent, and only the parent's
     * ancestors may break the size rule.
     */
    method SpliceOut(node: Ref, child: Link, ghost c: Ctx, ghost s: Tree) returns (ghost sc: Ctx, ghost ss: Tree)
      requires Arena(Plug(c, s), heap, nextRef) && SizesOk(Plug(c, s), heap, {}) && root == RootLink(Plug(c, s))
      requires s.Branch? && s.ref == node
      requires (s.left.Empty? || s.right.Empty?) && child == RootLink(DeleteRoot(s))
      modifies this`heap, this`root
      ensures Plug(sc, ss) == Plug(c, DeleteRoot(s)) && heap.Keys == old(heap).Keys
      ensures Arena(Plug(sc, ss), heap, nextRef) && SizesOk(Plug(sc, ss), heap, PathRefs(sc))
      ensures c != [] ==> ss.Branch? && ss.ref == c[0].p
      ensures c == [] ==> sc == [] && root == RootLink(Plug(sc, ss))
      ensures HashesKept(old(heap), heap)
    {
      ghost var h0 := heap;
      OneChildReady(c, s, heap);
      ReplaceNode(node, child, c, s);
      sc, ss := c, DeleteRoot(s);
      if heap[node].parent != Null {
        UpdateSizeFromChildren(heap[node].parent.ref);
        sc, ss := c[1..], Fill(c[0], DeleteRoot(s));
      }
      SplicedOut(c, s, h0, heap, sc, ss, nextRef);
    }

    /**
     * Case 3a of `removeNode`: the predecessor `pred` is `node`'s left
     * child; it takes `node`'s place and `node`'s right subtree. Afterwards
     * the arena encodes the tree without `node`, and only `pred` and its
     * ancestors may break the size rule.
     */
    method PromotePredecessor(node: Ref, pred: Ref, ghost c: Ctx, ghost s: Tree) returns (ghost sc: Ctx, ghost ss: Tree)
      requires Arena(Plug(c, s), heap, nextRef) && SizesOk(Plug(c, s), heap, {}) && root == RootLink(Plug(c, s))
      requires s.Branch? && s.ref == node
      requires s.left.Branch? && s.right.Branch? && s.left.right.Empty? && pred == s.left.ref
      modifies this`heap, this`root
      ensures Plug(sc, ss) == Plug(c, DeleteRoot(s)) && heap.Keys == old(heap).Keys
      ensures Arena(Plug(sc, ss), heap, nextRef) && SizeFixFrom(heap, pred, sc, ss)
      ensures HashesKept(old(heap), heap)
    {
      ghost var h0 := heap;
      PredChildRemoved(c, s, heap);
      AtHole(c, s, heap);
      ReplaceNode(node, Ptr(pred), c, s);
      SetRightChild(pred, heap[node].right);
      sc, ss := c, DeleteRoot(s);
      SizesOkWeaken(Plug(sc, ss), heap, LinkSet(Up(c, Null)) + {pred}, {pred} + PathRefs(c));
      KeysBelow(h0, heap, nextRef);
    }

    /**
     * Case 3b of `removeNode`: the predecessor `pred` lies deeper in the
     * left subtree; `pred` takes `node`'s place and both of `node`'s
     * subtrees, and `pred`'s old parent `opp` adopts `pred`'s old left
     * child. Afterwards the arena encodes the tree without `node`, seen as
     * `sc` around the subtree `ss` rooted at `opp`, and only `opp` and its
     * ancestors may break the size rule.
     */
    method PromoteDeepPredecessor(node: Ref, pred: Ref, ghost c: Ctx, ghost s: Tree)
      returns (opp: Ref, ghost sc: Ctx, ghost ss: Tree)
      requires Arena(Plug(c, s), heap, nextRef) && SizesOk(Plug(c, s), heap, {}) && root == RootLink(Plug(c, s))
      requires s.Branch? && s.ref == node && s.left.Branch? && s.right.Branch? && s.left.right.Branch?
      requires pred == SplitMax(s.left).2
      modifies this`heap, this`root
      ensures Plug(sc, ss) == Plug(c, DeleteRoot(s)) && heap.Keys == old(heap).Keys
      ensures Arena(Plug(sc, ss), heap, nextRef) && SizeFixFrom(heap, opp, sc, ss)
      ensures HashesKept(old(heap), heap)
    {
      ghost var (d, e, m, mk) := SplitMax(s.left);
      ghost var h0 := heap;
      DeepReadyFacts(c, s, heap);
      opp := heap[pred].parent.ref;
      var opc := heap[pred].left;
      ReplaceNode(node, Ptr(pred), c, s);
      SetLeftChild(pred, heap[node].left);
      SetRightChild(pred, heap[node].right);
      SetRightChild(opp, opc);
      sc, ss := d[1..] + [LeftHole(m, mk, s.right)] + c, Fill(d[0], e);
      DeepDone(c, s, h0, heap, opp, sc, ss, nextRef);
    }

    /**
     * The relinking half of `rotate`: `x` changes places with its parent `p`
     * (a right rotation when `x` is a left child, a left rotation otherwise)
     * and takes `p`'s place in the grandparent, or becomes parentless.
     */
    method RelinkUp(x: Ref, ghost c: Ctx, ghost s: Tree) returns (p: Ref)
      requires At(c, s, heap) && s.ref == x
      modifies this`heap
      ensures p == c[0].p && RelinkDone(c, s, old(heap), heap) && HashesKept(old(heap), heap)
    {
      ghost var h0 := heap;
      Position(c, s, h0);
      RotateFacts(c, s, h0);
      p := heap[x].parent.ref;
      var gp := heap[p].parent;
      if IsLeftChild(heap, x) {
        RotateRight(x);
      } else if IsRightChild(heap, x) {
        RotateLeft(x);
      }
      if gp != Null {
        if heap[gp.ref].left == Ptr(p) {
          SetLeftChild(gp.ref, Ptr(x));
        } else if heap[gp.ref].right == Ptr(p) {
          SetRightChild(gp.ref, Ptr(x));
        }
      } else {
        heap := heap[x := heap[x].(parent := gp)];
      }
      assert heap == Relinked(c, s, h0);
      RotateStep(c, s, h0);
    }
  }

  /** The children of `n` are allocated. */
  ghost predicate ChildrenIn(h: Heap, n: Ref)
    requires n in h
  {
    (h[n].left.Ptr? ==> h[n].left.ref in h) && (h[n].right.Ptr? ==> h[n].right.ref in h)
  }

  /** What cases 1 and 2 of `removeNode` read before and after `replaceNode`. */
  lemma OneChildReady(c: Ctx, s: Tree, h: Heap)
    requires s.Branch? && Encodes(Plug(c, s), h) && SizesOk(Plug(c, s), h, {})
    requires s.left.Empty? || s.right.Empty?
    ensures var u := DeleteRoot(s);
      && (c != [] ==> c[0].p in h) && s.ref in h && (u.Branch? ==> u.ref in h)
      && (u.Branch? ==> u.ref in Refs(s) && u.ref != s.ref)
      && var h' := Spliced(c, RootLink(u), h);
      && s.ref in h' && h'[s.ref].parent == Up(c, Null)
      && (c != [] ==> c[0].p in h' && ChildrenIn(h', c[0].p))
  {
    var u := DeleteRoot(s);
    OneChildRemoved(c, s, h);
    AtHole(c, s, h);
    var h' := Spliced(c, RootLink(u), h);
    if c != [] {
      assert Plug(c, u) == Plug(c[1..], Fill(c[0], u));
      HoleFacts(c[1..], Fill(c[0], u), h');
    }
  }

  /**
   * Cases 1 and 2 of `removeNode` end to end: once the only child has taken
   * the node's place and the parent's size is recomputed, the arena encodes
   * the tree without the node, and only the ancestors above the parent may
   * break the size rule.
   */
  lemma SplicedOut(c: Ctx, s: Tree, h: Heap, h2: Heap, sc: Ctx, ss: Tree, next: Ref)
    requires s.Branch? && Arena(Plug(c, s), h, next) && SizesOk(Plug(c, s), h, {})
    requires s.left.Empty? || s.right.Empty?
    requires DeleteRoot(s).Branch? ==> DeleteRoot(s).ref in h
    requires c != [] ==> c[0].p in h && h2 == Resized(Spliced(c, RootLink(DeleteRoot(s)), h), c[0].p)
    requires c != [] ==> sc == c[1..] && ss == Fill(c[0], DeleteRoot(s))
    requires c == [] ==> h2 == Spliced(c, RootLink(DeleteRoot(s)), h) && sc == [] && ss == DeleteRoot(s)
    ensures Plug(sc, ss) == Plug(c, DeleteRoot(s)) && (c == [] ==> Plug(sc, ss) == ss)
    ensures Arena(Plug(sc, ss), h2, next) && h2.Keys == h.Keys && SizesOk(Plug(sc, ss), h2, PathRefs(sc))
    ensures c != [] ==> ss.Branch? && ss.ref == c[0].p
  {
    var u := DeleteRoot(s);
    OneChildRemoved(c, s, h);
    if c != [] {
      ParentResized(c, u, Spliced(c, RootLink(u), h), h2);
    }
    KeysBelow(h, h2, next);
  }

  /**
   * What the relinking of case 3b needs: `node` is the root of `s` with two
   * children, `pred` a node below it, and the nodes it names are allocated
   * and distinct where the relinking needs them to be.
   */
  ghost predicate DeepRelinkable(c: Ctx, s: Tree, h: Heap, node: Ref, pred: Ref, opp: Ref, opc: Link)
  {
    && s.Branch? && s.ref == node && s.left.Branch? && s.right.Branch?
    && DeepNames(c, pred, s.left.ref, s.right.ref, opp, opc, h)
    && pred in Refs(s) && pred != node
    && node in h && h[node].left == Ptr(s.left.ref) && h[node].right == Ptr(s.right.ref)
    && Spliced(c, Ptr(pred), h)[node] == h[node]
    && WithLeft(Spliced(c, Ptr(pred), h), pred, Ptr(s.left.ref))[node] == h[node]
  }

  /** `s` is rooted at `n`, and only `n` and its ancestors may break the size rule. */
  ghost predicate SizeFixFrom(h: Heap, n: Ref, c: Ctx, s: Tree)
  {
    s.Branch? && s.ref == n && SizesOk(Plug(c, s), h, {n} + PathRefs(c))
  }

  /** One `rotate` keeps the arena's node set and its bound on handles. */
  lemma Rotated(c: Ctx, s: Tree, h: Heap, h2: Heap, h': Heap, S: set<Ref>, next: Ref)
    requires Arena(Plug(c, s), h, next) && RelinkDone(c, s, h, h2) && StaleNear(c, s, h, S)
    requires h' == Resized(Resized(h2, c[0].p), s.ref)
    ensures Arena(Plug(c[1..], RotateUp(c[0], s)), h', next) && h'.Keys == h.Keys
    ensures SizesOk(Plug(c[1..], RotateUp(c[0], s)), h', StaleAfter(c, s, S))
  {
    RotateDone(c, s, h, h2, h', S);
    KeysBelow(h, h', next);
  }

  /**
   * After `_insert` at the root with the fresh handle `m`, the arena encodes
   * the grown search tree, whose root is already parentless, and every
   * handle is below `m + 1`.
   */
  lemma InsertDone(t: Tree, k: int, m: Ref, h: Heap, h1: Heap)
    requires Arena(t, h, m) && h.Keys == Refs(t) && SizesOk(t, h, {}) && k !in KeySet(t)
    requires Inserted(t, Null, k, m, h, h1)
    ensures var t' := Search.BstInsert(t, k, m);
      && Arena(t', h1, m + 1) && SizesOk(t', h1, {})
      && h1.Keys == Refs(t') == Refs(t) + {m} && KeySet(t') == KeySet(t) + {k}
      && m in Refs(t') && h1[m].key == k && t'.Branch?
      && h1[t'.ref := h1[t'.ref].(parent := Null)] == h1
  {
    InsertedRoot(t, k, m, h, h1);
  }

  /**
   * Freeing a node outside the tree keeps the encoding and the sizes; the
   * links it had when it was freed do not matter.
   */
  lemma Freed(t: Tree, h: Heap, n: Ref, next: Ref)
    requires Arena(t, h, next) && SizesOk(t, h, {}) && h.Keys == Refs(t) + {n} && n !in Refs(t)
    ensures Arena(t, h - {n}, next) && SizesOk(t, h - {n}, {}) && (h - {n}).Keys == Refs(t)
  {
    var h' := h - {n};
    LinkedFrame(t, Null, h, h');
    forall r | r in Refs(t) ensures SizeOkAt(h', r) {
      ChildLinksBack(t, Null, h, r);
    }
  }

  /** The arena after `swapNodeValues(n, m)`: the two keys exchanged, everything else as before. */
  function KeysSwapped(h: Heap, n: Ref, m: Ref): (h': Heap)
    requires n in h && m in h
    ensures h'.Keys == h.Keys && h'[n].key == h[m].key && h'[m].key == h[n].key
    ensures h'[n] == h[n].(key := h[m].key) && h'[m] == h[m].(key := h[n].key)
    ensures forall q | q in h && q != n && q != m :: h'[q] == h[q]
  {
    h[n := h[n].(key := h[m].key)][m := h[m].(key := h[n].key)]
  }

  /** Swapping the same two keys twice restores the arena. */
  lemma SwapTwice(h: Heap, n: Ref, m: Ref)
    requires n in h && m in h
    ensures KeysSwapped(KeysSwapped(h, n, m), n, m) == h
  {
  }

  lemma KeysBelow(h: Heap, h': Heap, n: Ref)
    requires (forall r | r in h :: r < n) && h'.Keys == h.Keys
    ensures forall r | r in h' :: r < n
  {
  }

  /** What case 3b of `removeNode` reads before and during its relinking. */
  lemma DeepReadyFacts(c: Ctx, s: Tree, h: Heap)
    requires s.Branch? && s.left.Branch? && s.right.Branch? && s.left.right.Branch?
    requires Encodes(Plug(c, s), h) && SizesOk(Plug(c, s), h, {})
    ensures var (d, e, m, mk) := SplitMax(s.left);
      && d != [] && m in h && h[m].parent == Ptr(d[0].p) && h[m].left == RootLink(e)
      && DeepRelinkable(c, s, h, s.ref, m, d[0].p, RootLink(e))
  {
    PredDeepRemoved(c, s, h);
    PredLinks(c, s, h);
    AtHole(c, s, h);
  }

  /**
   * Case 3b of `removeNode` end to end: after the relinking, the arena
   * encodes the tree without the node, seen from the predecessor's old
   * parent `opp`, and only `opp` and its ancestors may break the size rule.
   */
  lemma DeepDone(c: Ctx, s: Tree, h: Heap, h4: Heap, opp: Ref, sc: Ctx, ss: Tree, next: Ref)
    requires s.Branch? && s.left.Branch? && s.right.Branch? && s.left.right.Branch?
    requires Arena(Plug(c, s), h, next) && SizesOk(Plug(c, s), h, {})
    requires var (d, e, m, mk) := SplitMax(s.left);
      && d != [] && DeepNames(c, m, s.left.ref, s.right.ref, d[0].p, RootLink(e), h)
      && opp == d[0].p && sc == d[1..] + [LeftHole(m, mk, s.right)] + c && ss == Fill(d[0], e)
      && h4 == DeepSpliced(c, m, s.left.ref, s.right.ref, opp, RootLink(e), h)
    ensures Plug(sc, ss) == Plug(c, DeleteRoot(s))
    ensures Arena(Plug(sc, ss), h4, next) && h4.Keys == h.Keys && SizeFixFrom(h4, opp, sc, ss)
  {
    var (d, e, m, mk) := SplitMax(s.left);
    PredDeepRemoved(c, s, h);
    OppPath(c, s);
    assert LinkSet(Up(c, Null)) <= PathRefs(c);
    SizesOkWeaken(Plug(c, DeleteRoot(s)), h4, LinkSet(Up(c, Null)) + {m, opp}, {opp} + PathRefs(sc));
    KeysBelow(h, h4, next);
  }

  /**
   * `removeNode`'s update of the parent of a node with at most one child:
   * afterwards only the ancestors above that parent can break the size rule.
   */
  lemma ParentResized(c: Ctx, u: Tree, h: Heap, h': Heap)
    requires c != [] && Linked(Plug(c, u), Null, h) && Distinct(Plug(c, u)) && c[0].p in h
    requires SizesOk(Plug(c, u), h, {c[0].p})
    requires h' == Resized(h, c[0].p)
    ensures Linked(Plug(c, u), Null, h') && SizesOk(Plug(c, u), h', PathRefs(c[1..]))
  {
    var f := Fill(c[0], u);
    assert Plug(c, u) == Plug(c[1..], f);
    SizesOkWeaken(Plug(c, u), h, {c[0].p}, {f.ref} + PathRefs(c[1..]));
    SizeToRootStep(c[1..], f, h, h');
    if c[1..] != [] {
      assert Plug(c[1..][1..], Fill(c[1..][0], f)) == Plug(c[1..], f);
      assert PathRefs(c[1..]) == {c[1..][0].p} + PathRefs(c[1..][1..]);
    }
  }

  /** One pass of the loop of `UpdateSizeToRoot`: the links stay, the out-of-date set moves up. */
  lemma SizeToRootStep(c: Ctx, s: Tree, h: Heap, h': Heap)
    requires Linked(Plug(c, s), Null, h) && Distinct(Plug(c, s)) && s.Branch?
    requires SizesOk(Plug(c, s), h, {s.ref} + PathRefs(c))
    requires s.ref in h
    requires h' == Resized(h, s.ref)
    ensures Linked(Plug(c, s), Null, h') && h'.Keys == h.Keys
    ensures h'[s.ref].parent == Up(c, Null)
    ensures c == [] ==> SizesOk(Plug(c, s), h', {})
    ensures c != [] ==> SizesOk(Plug(c[1..], Fill(c[0], s)), h', {c[0].p} + PathRefs(c[1..]))
  {
    HoleFacts(c, s, h);
    SizeFixStep(c, s, h, h');
    LinkedSizeUpdate(Plug(c, s), Null, h, s.ref, h'[s.ref].size);
  }


  /**
   * `_find(n, k)`: descends from `n`, the root of the subtree `t`, towards
   * `k` by key comparison; the node holding `k`, or Null when the descent
   * falls off the tree.
   */
  function FindFrom(h: Heap, n: Link, k: int, ghost t: Tree): (r: Link)
    requires Hangs(t, h) && n == RootLink(t)
    ensures r.Ptr? ==> r.ref in Refs(t) && r.ref in h && h[r.ref].key == k
    decreases t
  {
    if n == Null then Null
    else if k == h[n.ref].key then n
    else
      HangsChildren(t, h);
      if k < h[n.ref].key then FindFrom(h, h[n.ref].left, k, t.left)
      else FindFrom(h, h[n.ref].right, k, t.right)
  }

  /** In a search tree the descent finds every key the tree holds. */
  lemma {:induction false} FindFromComplete(h: Heap, k: int, t: Tree)
    requires Hangs(t, h) && Bst(t)
    ensures FindFrom(h, RootLink(t), k, t).Ptr? <==> k in KeySet(t)
    decreases t
  {
    if t.Branch? {
      HangsChildren(t, h);
      Search.SearchSide(t, k);
      if k < t.key {
        FindFromComplete(h, k, t.left);
      } else if k > t.key {
        FindFromComplete(h, k, t.right);
      }
    }
  }

  /** `maximumLeaf`: follows right children from `n`, the root of `t`, to the rightmost node. */
  function MaximumLeaf(h: Heap, n: Ref, ghost t: Tree): (r: Ref)
    requires Hangs(t, h) && t.Branch? && n == t.ref
    ensures r == SplitMax(t).2 && r in h && h[r].right == Null && h[r].key == SplitMax(t).3
    decreases t
  {
    if h[n].right != Null then
      HangsChildren(t, h);
      MaximumLeaf(h, h[n].right.ref, t.right)
    else
      n
  }

  /** `minimumLeaf`: follows left children from `n`, the root of `t`, to the leftmost node. */
  function MinimumLeaf(h: Heap, n: Ref, ghost t: Tree): (r: Ref)
    requires Hangs(t, h) && t.Branch? && n == t.ref
    ensures r in Refs(t) && r in h && h[r].left == Null && h[r].key == Inorder(t)[0]
    decreases t
  {
    if h[n].left != Null then
      HangsChildren(t, h);
      MinimumLeaf(h, h[n].left.ref, t.left)
    else
      n
  }

  /**
   * Between operations the tree passes every invariant check of the test
   * suite: child/parent symmetry, local search order and subtree sizes at
   * every node.
   */
  lemma ValidPassesChecks(st: SplayTree)
    requires st.Valid()
    ensures TestUtils.AllNodesSatisfy(TestUtils.ChildParent, st.heap, st.root, st.shape, Null)
    ensures TestUtils.AllNodesSatisfy(TestUtils.BstNode, st.heap, st.root, st.shape, Null)
    ensures TestUtils.AllNodesSatisfy(TestUtils.SubtreeSize, st.heap, st.root, st.shape, Null)
  {
    TestUtils.ChildParentPasses(st.shape, Null, st.heap);
    TestUtils.BstNodePasses(st.shape, Null, st.heap);
    TestUtils.SubtreeSizeExact(st.shape, Null, st.heap);
  }
}
