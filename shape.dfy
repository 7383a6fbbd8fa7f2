/**
 * The ghost shape of a splay tree: a binary tree of node handles with their
 * keys, the zipper (a path of frames from a node up to the root) used to talk
 * about one position inside it, and the rotation of a node with its parent at
 * the level of shapes.
 */
module Shape {

  /** A handle of a node in the arena (the model of an `STNode *`). */
  type Ref = nat

  datatype Tree = Empty | Branch(left: Tree, ref: Ref, key: int, right: Tree)

  /**
   * One step of a path towards the root: the hole is the left child of node
   * `p` (whose right subtree is `sibling`), or its right child.
   */
  datatype Frame =
    | LeftHole(p: Ref, pkey: int, sibling: Tree)
    | RightHole(sibling: Tree, p: Ref, pkey: int)

  /** A path from a hole up to the root, innermost frame first. */
  type Ctx = seq<Frame>

  /** In-order key sequence. */
  function Inorder(t: Tree): seq<int>
  {
    match t
    case Empty => []
    case Branch(l, _, k, r) => Inorder(l) + [k] + Inorder(r)
  }

  function Refs(t: Tree): set<Ref>
  {
    match t
    case Empty => {}
    case Branch(l, x, _, r) => Refs(l) + {x} + Refs(r)
  }

  function Size(t: Tree): nat
  {
    match t
    case Empty => 0
    case Branch(l, _, _, r) => Size(l) + 1 + Size(r)
  }

  /** The node count is the length of the in-order key sequence. */
  lemma {:induction false} SizeIsLength(t: Tree)
    ensures Size(t) == |Inorder(t)|
  {
    if t.Branch? {
      SizeIsLength(t.left);
      SizeIsLength(t.right);
    }
  }

  /** Two trees with the same in-order keys have the same key set, size and search-tree property. */
  lemma SameInorder(t: Tree, t': Tree)
    requires Inorder(t) == Inorder(t')
    ensures KeySet(t) == KeySet(t') && Size(t) == Size(t') && (Bst(t) <==> Bst(t'))
  {
    SizeIsLength(t);
    SizeIsLength(t');
  }

  /** Every handle occurs at most once: the node graph is a tree, not a DAG. */
  ghost predicate Distinct(t: Tree)
  {
    match t
    case Empty => true
    case Branch(l, x, _, r) =>
      && x !in Refs(l) && x !in Refs(r) && Refs(l) !! Refs(r)
      && Distinct(l) && Distinct(r)
  }

  ghost predicate StrictlySorted(s: seq<int>)
  {
    forall i, j :: 0 <= i < j < |s| ==> s[i] < s[j]
  }

  /** Binary-search-tree order: the in-order keys strictly increase. */
  ghost predicate Bst(t: Tree)
  {
    StrictlySorted(Inorder(t))
  }

  function KeySet(t: Tree): set<int>
  {
    set k | k in Inorder(t)
  }

  function Fill(f: Frame, s: Tree): Tree
  {
    match f
    case LeftHole(p, pk, r) => Branch(s, p, pk, r)
    case RightHole(l, p, pk) => Branch(l, p, pk, s)
  }

  /** The whole tree obtained by putting `s` into the hole of path `c`. */
  function Plug(c: Ctx, s: Tree): Tree
    decreases |c|
  {
    if c == [] then s else Plug(c[1..], Fill(c[0], s))
  }

  function CtxRefs(c: Ctx): set<Ref>
    decreases |c|
  {
    if c == [] then {} else {c[0].p} + Refs(c[0].sibling) + CtxRefs(c[1..])
  }

  /** The nodes on the path from the hole up to the root. */
  function PathRefs(c: Ctx): (r: set<Ref>)
    ensures r <= CtxRefs(c)
    decreases |c|
  {
    if c == [] then {} else {c[0].p} + PathRefs(c[1..])
  }

  /** Keys that the path puts before the hole, and after it. */
  function CtxLeft(c: Ctx): seq<int>
    decreases |c|
  {
    if c == [] then []
    else CtxLeft(c[1..]) + (if c[0].RightHole? then Inorder(c[0].sibling) + [c[0].pkey] else [])
  }

  function CtxRight(c: Ctx): seq<int>
    decreases |c|
  {
    if c == [] then []
    else (if c[0].LeftHole? then [c[0].pkey] + Inorder(c[0].sibling) else []) + CtxRight(c[1..])
  }

  lemma {:induction false} PlugInorder(c: Ctx, s: Tree)
    ensures Inorder(Plug(c, s)) == CtxLeft(c) + Inorder(s) + CtxRight(c)
    decreases |c|
  {
    if c != [] {
      PlugInorder(c[1..], Fill(c[0], s));
    }
  }

  lemma {:induction false} PlugRefs(c: Ctx, s: Tree)
    ensures Refs(Plug(c, s)) == CtxRefs(c) + Refs(s)
    decreases |c|
  {
    if c != [] {
      PlugRefs(c[1..], Fill(c[0], s));
    }
  }

  lemma {:induction false} PlugSize(c: Ctx, s: Tree, s': Tree)
    requires Size(s) == Size(s')
    ensures Size(Plug(c, s)) == Size(Plug(c, s'))
    decreases |c|
  {
    if c != [] {
      PlugSize(c[1..], Fill(c[0], s), Fill(c[0], s'));
    }
  }

  /** A plugged tree is Distinct iff the hole's subtree is, the path is, and they share no handle. */
  ghost predicate CtxDistinct(c: Ctx)
    decreases |c|
  {
    if c == [] then true
    else
      && Distinct(c[0].sibling)
      && c[0].p !in Refs(c[0].sibling)
      && c[0].p !in CtxRefs(c[1..])
      && Refs(c[0].sibling) !! CtxRefs(c[1..])
      && CtxDistinct(c[1..])
  }

  lemma {:induction false} PlugDistinct(c: Ctx, s: Tree)
    ensures Distinct(Plug(c, s)) <==> Distinct(s) && CtxDistinct(c) && CtxRefs(c) !! Refs(s)
    decreases |c|
  {
    if c != [] {
      PlugDistinct(c[1..], Fill(c[0], s));
    }
  }

  /** A non-empty path puts its outermost node at the root. */
  lemma {:induction false} PlugTop(c: Ctx, s: Tree)
    requires c != []
    ensures Plug(c, s).Branch? && Plug(c, s).ref == c[|c| - 1].p
    decreases |c|
  {
    if |c| > 1 {
      assert c[1..][|c[1..]| - 1] == c[|c| - 1];
      PlugTop(c[1..], Fill(c[0], s));
    }
  }

  lemma {:induction false} PathRefsAppend(c1: Ctx, c2: Ctx)
    ensures PathRefs(c1 + c2) == PathRefs(c1) + PathRefs(c2)
    decreases |c1|
  {
    if c1 != [] {
      assert (c1 + c2)[0] == c1[0] && (c1 + c2)[1..] == c1[1..] + c2;
      PathRefsAppend(c1[1..], c2);
    } else {
      assert c1 + c2 == c2;
    }
  }

  lemma {:induction false} PlugAppend(c1: Ctx, c2: Ctx, s: Tree)
    ensures Plug(c1 + c2, s) == Plug(c2, Plug(c1, s))
    decreases |c1|
  {
    if c1 != [] {
      assert (c1 + c2)[0] == c1[0] && (c1 + c2)[1..] == c1[1..] + c2;
      PlugAppend(c1[1..], c2, Fill(c1[0], s));
    } else {
      assert c1 + c2 == c2;
    }
  }

  /**
   * Rotating the root `x` of `s` with the node of frame `f` (its parent):
   * a right rotation when `x` is a left child, a left rotation otherwise.
   */
  function RotateUp(f: Frame, s: Tree): (r: Tree)
    requires s.Branch?
    ensures r.Branch? && r.ref == s.ref && r.key == s.key
  {
    match f
    case LeftHole(p, pk, c) => Branch(s.left, s.ref, s.key, Branch(s.right, p, pk, c))
    case RightHole(a, p, pk) => Branch(Branch(a, p, pk, s.left), s.ref, s.key, s.right)
  }

  /** Rotation keeps the in-order sequence, the handles, the size and distinctness. */
  lemma RotateUpPreserves(f: Frame, s: Tree)
    requires s.Branch?
    ensures Inorder(RotateUp(f, s)) == Inorder(Fill(f, s))
    ensures Refs(RotateUp(f, s)) == Refs(Fill(f, s))
    ensures Size(RotateUp(f, s)) == Size(Fill(f, s))
    ensures Distinct(RotateUp(f, s)) <==> Distinct(Fill(f, s))
  {
  }

  /** The zipper position of handle `x` inside `t`. */
  function Locate(t: Tree, x: Ref): (r: (Ctx, Tree))
    requires x in Refs(t)
    ensures r.1.Branch? && r.1.ref == x
    ensures Plug(r.0, r.1) == t
  {
    if t.ref == x then ([], t)
    else if x in Refs(t.left) then
      var (c, s) := Locate(t.left, x);
      PlugAppend(c, [LeftHole(t.ref, t.key, t.right)], s);
      (c + [LeftHole(t.ref, t.key, t.right)], s)
    else
      var (c, s) := Locate(t.right, x);
      PlugAppend(c, [RightHole(t.left, t.ref, t.key)], s);
      (c + [RightHole(t.left, t.ref, t.key)], s)
  }

  ghost predicate AllRightHoles(c: Ctx)
  {
    forall i :: 0 <= i < |c| ==> c[i].RightHole?
  }

  /**
   * The rightmost node of a non-empty tree: `t` is the path `d` of right
   * steps down to a node `m` with key `mk`, left subtree `e` and no right child.
   */
  function SplitMax(t: Tree): (r: (Ctx, Tree, Ref, int))
    requires t.Branch?
    ensures AllRightHoles(r.0)
    ensures Plug(r.0, Branch(r.1, r.2, r.3, Empty)) == t
    decreases t
  {
    if t.right.Empty? then ([], t.left, t.ref, t.key)
    else
      var (d, e, m, mk) := SplitMax(t.right);
      PlugAppend(d, [RightHole(t.left, t.ref, t.key)], Branch(e, m, mk, Empty));
      (d + [RightHole(t.left, t.ref, t.key)], e, m, mk)
  }

  lemma {:induction false} RightPathHasNoRightKeys(c: Ctx)
    requires AllRightHoles(c)
    ensures CtxRight(c) == []
    decreases |c|
  {
    if c != [] {
      RightPathHasNoRightKeys(c[1..]);
    }
  }

  /** Sortedness of a concatenation around one key, in both directions. */
  lemma SortedAround(a: seq<int>, k: int, b: seq<int>)
    ensures StrictlySorted(a + [k] + b) <==>
      && StrictlySorted(a) && StrictlySorted(b)
      && (forall x :: x in a ==> x < k) && (forall y :: y in b ==> k < y)
  {
    var s := a + [k] + b;
    if StrictlySorted(s) {
      forall x | x in a ensures x < k {
        var i :| 0 <= i < |a| && a[i] == x;
        assert s[i] == x && s[|a|] == k;
      }
      forall y | y in b ensures k < y {
        var j :| 0 <= j < |b| && b[j] == y;
        assert s[|a| + 1 + j] == y && s[|a|] == k;
      }
      assert forall i :: 0 <= i < |a| ==> s[i] == a[i];
      assert forall j :: 0 <= j < |b| ==> s[|a| + 1 + j] == b[j];
    }
    if && StrictlySorted(a) && StrictlySorted(b)
       && (forall x :: x in a ==> x < k) && (forall y :: y in b ==> k < y)
    {
      forall i, j | 0 <= i < j < |s| ensures s[i] < s[j] {
        if j < |a| {
        } else if i < |a| {
          assert a[i] in a;
          if j > |a| { assert s[j] == b[j - |a| - 1] && b[j - |a| - 1] in b; }
        } else if i == |a| {
          assert s[j] == b[j - |a| - 1] && b[j - |a| - 1] in b;
        } else {
        }
      }
    }
  }

  /** Dropping one element keeps a strictly sorted sequence sorted. */
  lemma SortedDrop(a: seq<int>, k: int, b: seq<int>)
    requires StrictlySorted(a + [k] + b)
    ensures StrictlySorted(a + b)
    ensures k !in a + b
  {
    var s := a + [k] + b;
    var u := a + b;
    forall i, j | 0 <= i < j < |u| ensures u[i] < u[j] {
      var i' := if i < |a| then i else i + 1;
      var j' := if j < |a| then j else j + 1;
      assert u[i] == s[i'] && u[j] == s[j'];
    }
    SortedAround(a, k, b);
  }

  lemma SortedHeadIsMin(s: seq<int>, j: int)
    requires StrictlySorted(s) && 0 <= j < |s|
    ensures s[0] <= s[j]
  {
  }

  /** A strictly sorted sequence is determined by its set of elements. */
  lemma {:induction false} SortedUnique(s: seq<int>, u: seq<int>)
    requires StrictlySorted(s) && StrictlySorted(u)
    requires (set x | x in s) == (set x | x in u)
    ensures s == u
    decreases |s|
  {
    var S := set x | x in s;
    var U := set x | x in u;
    assert s != [] ==> s[0] in S;
    assert u != [] ==> u[0] in U;
    if s != [] && u != [] {
      // the first elements are both the minimum of the common set
      var i :| 0 <= i < |u| && u[i] == s[0];
      var j :| 0 <= j < |s| && s[j] == u[0];
      SortedHeadIsMin(s, j);
      SortedHeadIsMin(u, i);
      var S' := set x | x in s[1..];
      var U' := set x | x in u[1..];
      forall x ensures x in S' <==> x in S && x != s[0] {
        assert x in s <==> x == s[0] || x in s[1..] by { assert s == [s[0]] + s[1..]; }
        if x in s[1..] {
          var m :| 0 <= m < |s[1..]| && s[1..][m] == x;
          assert s[m + 1] == x && s[0] < s[m + 1];
        }
      }
      forall x ensures x in U' <==> x in U && x != u[0] {
        assert x in u <==> x == u[0] || x in u[1..] by { assert u == [u[0]] + u[1..]; }
        if x in u[1..] {
          var m :| 0 <= m < |u[1..]| && u[1..][m] == x;
          assert u[m + 1] == x && u[0] < u[m + 1];
        }
      }
      assert S' == U';
      SortedUnique(s[1..], u[1..]);
      assert s == [s[0]] + s[1..] && u == [u[0]] + u[1..];
    }
  }
}
