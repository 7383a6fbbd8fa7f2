# Splay tree with subtree sizes

This project models the splay tree of `splay/`: a binary search tree over unique `int` keys. Its nodes (`STNode`) carry `left`, `right` and `parent` pointers and a `size` field holding the node count of their subtree. The operations proved correct are:

- `find`, which splays a hit to the root;
- `insert`, a recursive descent that hangs a new leaf, recomputes sizes on the way back and splays the new node;
- `remove`, which unlinks the node in one of three cases (no left child, no right child, two children with the in-order predecessor promoted), repairs sizes and splays;
- the pointer-level primitives underneath them: `setLeftChild`, `setRightChild`, `replaceNode`, `rotate`, `rotateLeft`, `rotateRight`, `updateSizeFromChildren`, `updateSizeToRoot`, `maximumLeaf`, `minimumLeaf` and `swapNodeValues`.

The invariant checkers of the test utilities (`countNodes`, the child/parent, BST-node and subtree-size predicates, `allNodesSatisfy`) are modelled as functions. They are shown to pass on every valid tree.

How the model is built:

- **Nodes in an arena.** Nodes live in a map `heap` from handles to node records (module `Nodes`). A pointer is `Null` or `Ptr(handle)`. `new STNode(k)` takes the fresh handle `nextRef`.
- **Ghost shape.** The class `Splay.SplayTree` keeps a ghost `shape: Tree` (module `Shape`), the binary tree that the arena encodes. `Linked` ties each node's key and three links to that shape.
- **Zipper.** A position inside the tree is a path of frames up to the root. A rotation of a node with its parent is `RotateUp` applied to the innermost frame.
- **Sizes.** The size invariant is the local rule `size = 1 + size(left) + size(right)`. `SizesOk(t, h, S)` allows it to be broken only at the nodes in `S`, which is how the model tracks the nodes whose sizes are out of date between a relinking and the rotations or `updateSizeToRoot` that repair them.
- **Recursion.** Every recursive walk over the arena (`_find`, `_insert`, `maximumLeaf`, `countNodes`, `_allNodesSatisfy`) takes the subtree it walks as a ghost argument. The walk terminates on that argument.

Between operations `Valid()` holds:

- the arena encodes a search tree over distinct nodes;
- `root` points at its root, which is the only parentless node;
- the arena holds no other node;
- every size is exact;
- no insertion is in progress.

`find`, `insert` and `remove` preserve `Valid()` and state their effect on the key set `Keys()`. `replaceNode` and `swapNodeValues` are pointer- and key-level primitives: their contracts give the new arena exactly, and swapping two keys breaks search order in general. No operation writes a node's `hash` field after construction: every method that changes the arena, `SwapNodeValues` included, states `HashesKept`, so every node that stays allocated keeps its hash.

## Model

| member | source | states |
|---|---|---|
| Nodes.NewNode | splay/splay.h:56-62 | `STNode(k)` is a detached leaf holding `k`: all three links are null, its size is the node count of a one-node tree, and its hash is the documented hash of the one-key sequence `[k]` |
| Splay.SplayTree.constructor | splay/splay.h:151 | a new tree is valid and empty, with a null root |
| Nodes.WithLeft | splay/splay.cpp:57-62 | `setLeftChild(m)`: `n.left` becomes `m`, and a non-null `m` records `n` as its parent; no other node changes |
| Nodes.WithRight | splay/splay.cpp:64-69 | `setRightChild(m)`: the mirror image of `setLeftChild` |
| Splay.SplayTree.SetLeftChild | splay/splay.cpp:57-62 | the arena after the call is exactly `WithLeft` of the arena before |
| Splay.SplayTree.SetRightChild | splay/splay.cpp:64-69 | the arena after the call is exactly `WithRight` of the arena before |
| Nodes.Resized | splay/splay.cpp:39-47 | `updateSizeFromChildren` changes only the node's size, and afterwards the node obeys the size rule, an absent child counting 0 |
| Splay.SplayTree.UpdateSizeFromChildren | splay/splay.cpp:39-47 | the arena after the call is `Resized` of the arena before |
| Splay.SplayTree.UpdateSizeToRoot | splay/splay.cpp:49-55 | walking from `n` to the root repairs every size when only `n` and its ancestors were out of date; the tree and its node set are unchanged |
| Nodes.SizeIsCount | splay/splay.h:53-54 | where every node obeys the local size rule, each size field is its subtree's node count |
| Nodes.Position | splay/splay.cpp:93-101 | in a linked tree, `hasParent`, `hasGrandP`, `isLeftChild` and `isRightChild` of a node and of its parent read off its path to the root, in both directions |
| Nodes.SplayStepDefined | splay/splay.cpp:215-226 | whenever a node has a grandparent, exactly one of `zigZig` and `zigZag` holds, so every pass of the splay loop rotates |
| Splay.SplayTree.RotateRight | splay/splay.cpp:191-200 | a left child `x` takes its parent `p` as its right child, and `p` takes `x`'s old right subtree as its left; for any other node nothing changes |
| Splay.SplayTree.RotateLeft | splay/splay.cpp:181-189 | a right child `x` takes its parent `p` as its left child, and `p` takes `x`'s old left subtree as its right; for any other node nothing changes |
| Shape.RotateUpPreserves | splay/splay.cpp:111-130 | a rotation keeps the in-order key sequence, the node set, the node count and distinctness |
| Rotations.RotateLinks | splay/splay.cpp:131-152 | after the relinking of `rotate`, the arena holds exactly the links of the rotated shape: `x` takes `p`'s place under `gp` (or becomes parentless), `p` becomes `x`'s child, and `x`'s inner subtree moves to `p`, with the in-order sequence unchanged |
| Rotations.RotateSizes | splay/splay.cpp:154-159 | recomputing `p` and then `x` leaves the size rule broken at most where it was broken before, minus `x` and `p`, plus the new parent of `x`; it is broken nowhere if it held everywhere |
| Splay.SplayTree.RelinkUp | splay/splay.cpp:131-152 | the relinking half of `rotate` produces the rotated links, `x` replacing `p` under the grandparent or becoming parentless |
| Splay.SplayTree.Rotate | splay/splay.cpp:131-160 | `rotate` on a parentless node changes nothing. Otherwise the arena encodes the shape rotated at `x`, with the same in-order keys and the same nodes, and the out-of-date sizes move as `RotateSizes` says; every node other than `x` and `p` (so `gp` and the roots of `a`, `b`, `c`) keeps its size, and every node keeps its hash |
| Splay.SplayTree.SplayStep | splay/splay.cpp:272-290 | one pass of the splay loop: with no grandparent, a zig (one rotation of `x`) moves `x` up one level to the root; when `x` and its parent are children on the same side, a zig-zig (rotate the parent, then `x`) moves it up two levels; otherwise a zig-zag (rotate `x` twice) moves it up two levels. The resulting shape is stated exactly in each case, the keys stay in order, no hash changes, and sizes stay out of date only on `x`'s remaining ancestors |
| Splay.SplayTree.Splay | splay/splay.cpp:265-295 | splaying ends with `node` at the root, `root` pointing at it, the in-order keys and the node set unchanged, and every size exact, even when the sizes of `node`'s ancestors were out of date on entry; no hash field changes |
| Splay.FindFrom | splay/splay.cpp:524-534 | `_find` returns only a node of the subtree that holds `k` |
| Splay.FindFromComplete | splay/splay.cpp:524-534 | in a search tree, `_find` returns a node iff `k` is in the subtree |
| Search.SearchSide | splay/splay.cpp:530-533 | in a search tree, both subtrees are search trees, and `k` is in the tree iff it is the root key, or is below it and in the left subtree, or is above it and in the right subtree |
| Splay.SplayTree.Find | splay/splay.cpp:513-521 | `find(k)` returns a node iff `k` is present; a hit is splayed to the root and holds `k`; a miss changes nothing; the keys are unchanged either way; no hash field changes |
| Search.BstInsertKeys | splay/splay.cpp:490-508 | `_insert` adds exactly `k` to the key set and, for an absent key, exactly one new node, growing the node count by one |
| Search.BstInsertSorted | splay/splay.cpp:490-508 | inserting an absent key into a search tree gives a search tree |
| Search.BstInsertDistinct | splay/splay.cpp:490-508 | inserting on a fresh handle keeps the nodes distinct |
| Splay.SplayTree.InsertAt | splay/splay.cpp:490-508 | `_insert(node, k)` hangs the fresh node as the leaf the search path for `k` reaches, recomputes the size of every node on the descent path, records the new node in `insertedNodePtr` and returns the subtree's root |
| Splay.InsertDone | splay/splay.cpp:306-307 | after `_insert` at the root, the arena encodes the grown search tree with exact sizes, its root already parentless, and the new node holds `k` |
| Splay.SplayTree.HangLeaf | splay/splay.cpp:298-307 | the first half of `insert` adds exactly `k` and the one fresh node, keeps every size exact and leaves the new node recorded for splaying |
| Splay.SplayTree.Insert | splay/splay.cpp:298-321 | `insert(k)` of an absent key adds exactly `k` to the key set and one node to the tree; the new node, holding `k`, is the root afterwards; the tree stays valid; no hash field changes |
| Splay.SplayTree.ReplaceNode | splay/splay.cpp:338-357 | `replaceNode(n, m)` redirects `n`'s parent slot, or `root` when `n` is the root, to `m`, and sets `m.parent` to `n.parent`; `n` itself is untouched |
| Removal.SplicedFacts | splay/splay.cpp:338-357 | `replaceNode` changes only the parent's slot and `m`'s parent link, and no size |
| Deletion.DeleteRootContents | splay/splay.cpp:360-428 | the subtree that replaces a removed node holds the other keys in the same order, and the other nodes |
| Deletion.RemovedFacts | splay/splay.cpp:360-434 | removing a node from a search tree over distinct nodes gives a search tree over distinct nodes, without exactly that key and that node |
| Deletion.PredecessorKey | splay/splay.cpp:384-386 | the predecessor promoted in the two-children case holds the largest key below the removed key |
| Removal.OneChildRemoved | splay/splay.cpp:365-383 | when the node has at most one child, after `replaceNode` the arena encodes the tree without the node, and only the parent's size may be wrong |
| Removal.PredChildRemoved | splay/splay.cpp:388-402 | when the predecessor is the left child, after its promotion the arena encodes the tree without the node, with sizes wrong only at the predecessor and the node's parent |
| Removal.PredDeepRemoved | splay/splay.cpp:404-427 | when the predecessor lies deeper, after its promotion and its old parent's adoption of its left child the arena encodes the tree without the node, with sizes wrong only at the predecessor, its old parent and the node's parent |
| Splay.SplayTree.SpliceOut | splay/splay.cpp:365-383 | the one-child cases: the child takes the node's place and the parent's size is recomputed, so only the parent's ancestors may have wrong sizes |
| Splay.SplayTree.PromotePredecessor | splay/splay.cpp:388-402 | the direct-child predecessor case: only the predecessor and its ancestors may have wrong sizes, which `updateSizeToRoot` repairs |
| Splay.SplayTree.PromoteDeepPredecessor | splay/splay.cpp:404-427 | the deeper predecessor case: only the predecessor's old parent and its ancestors may have wrong sizes, which `updateSizeToRoot` repairs |
| Splay.SplayTree.RemoveNode | splay/splay.cpp:360-434 | `removeNode` leaves the tree without exactly that node and key, in the same order, with every size exact after the final splay; the removed node stays allocated outside the tree |
| Splay.SplayTree.RemoveFound | splay/splay.cpp:439-450 | removing a present node removes exactly its key and shrinks the tree by one node, keeping it valid |
| Splay.SplayTree.Free | splay/splay.cpp:444-450 | clearing the detached node's children and freeing it leaves the tree, its links and its sizes intact |
| Splay.Freed | splay/splay.cpp:444-450 | a node outside the tree can be freed without disturbing the encoding or the sizes |
| Splay.SplayTree.Remove | splay/splay.cpp:437-451 | `remove(k)` leaves a valid tree whose key set has lost exactly `k` and whose node count drops by one iff `k` was present; an absent key changes nothing; no hash field changes |
| Splay.KeysSwapped | splay/splay.cpp:455-466 | the two nodes are as before except that their keys are exchanged (so every link, size and hash is unchanged), and every other node is unchanged |
| Splay.SplayTree.SwapNodeValues | splay/splay.cpp:455-466 | the arena after the call is `KeysSwapped` of the arena before |
| Splay.SwapTwice | splay/splay.cpp:455-466 | swapping the same two keys twice restores the arena |
| Splay.MaximumLeaf | splay/splay.cpp:469-473 | `maximumLeaf` returns the rightmost node: it has no right child and holds the last key in order |
| Deletion.MaxKey | splay/splay.cpp:469-473 | in a search tree the rightmost node holds the largest key |
| Splay.MinimumLeaf | splay/splay.cpp:476-480 | `minimumLeaf` returns a node of the subtree with no left child, holding the first key in order |
| Deletion.MinKey | splay/splay.cpp:476-480 | in a search tree the first key in order is the smallest |
| PolyHash.HashOf | splay/splay.h:31-40 | the documented hash of a key sequence lies in `[0, M)` |
| PolyHash.SubtreeHash | splay/splay.h:31-40 | the documented hash of `l + [k] + r` is computed from the hashes of `l` and `r`, the key and the length of `l` |
| PolyHash.LeafHash | splay/splay.h:62 | a one-key sequence hashes to `k mod M`, the value the node constructor stores |
| TestUtils.CountNodes | splay/test-utils.cpp:35-38 | `countNodes` is the node count of the subtree, and 0 exactly on null |
| TestUtils.ChildParentPasses | splay/test-utils.cpp:48-70 | every node of a linked tree passes the child/parent test |
| TestUtils.BstNodePasses | splay/test-utils.cpp:76-85 | every node of a search tree passes the BST node test |
| TestUtils.SubtreeSizeExact | splay/test-utils.cpp:89-91 | the subtree-size test passes at every node iff every node obeys `size = 1 + size(left) + size(right)` |
| TestUtils.RootSizeCounted | splay/test-utils.cpp:89-91 | where the subtree-size test passes everywhere, the root's size is the node count |
| Splay.ValidPassesChecks | splay/test-utils.cpp:94-109 | between operations the tree passes `allNodesSatisfy` for all three predicates |

## Left out

- Console output (`printNeighbors`, `printInorder`, `_printInorder`) is plain I/O.
- The destructors and their `delete` cascades are left out. Memory is the arena. Freeing the removed node is modelled by `Free`, which clears its child links first, as `remove` does.
- The declared but undefined functions are not part of this model: `updateHashFromChildren`, `updateAugmentations`, `updateAugToRoot`, `getInorder`, `getSize`, `getHash`, `binpow`, `operator==`, `hashInorder` and `SubtreeHashPredicate`. No operation recomputes the `hash` field, so no hash invariant is claimed. `PolyHash` only defines the documented hash and proves its recurrence.
- `randomInts` depends on `rand()` and a hash set, and only generates test inputs.
- The CppUnit test suite and its `main` are left out. What its assertions check is stated as the lemmas above.
- The amortized `O(m log n)` cost bound would need a potential-function argument.
- `int` keys and sizes are unbounded integers. 32-bit overflow of `size` would need more than 2^31 nodes.
- Pointers are arena handles. Aliasing between trees, and nodes shared with other trees, cannot arise in the model.
- The tree constructor starts `insertedNodePtr` at null, where the source leaves it uninitialised. The field is only read after `_insert` has set it.
- Splay.SplayTree.Insert: requires the key to be absent, where the source fails `assert(false)` on a present key.
- Splay.SplayTree.Splay: is only called on a node of the tree. The source's `splay(nullptr)` fails an assertion.
- Splay.SplayTree.Rotate: is only called on a node of the tree. A rotate of a node that is neither its parent's left nor its right child cannot arise in a linked tree.
- Several source functions are modelled by a method plus helpers, each with its own contract:
  - `rotate` is `Rotate` plus `RelinkUp`;
  - the body of the `splay` loop is `SplayStep`;
  - `insert` is `HangLeaf` (the `_insert` call and the root fix-up) followed by `Splay`;
  - the three cases of `removeNode` are `SpliceOut`, `PromotePredecessor` and `PromoteDeepPredecessor`;
  - the hit branch of `remove` is `RemoveFound` followed by `Free`.
- The recursive walks take the subtree they walk as a ghost argument. In the source, termination follows from the pointers forming a finite tree, which the model states as `Linked`.
