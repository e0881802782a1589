# Binary tree nodes and binary search trees, in Dafny

This project models the binary tree node library of mathtastic
(`libraries/mt_typescript/src/treeNode.ts`) and proves properties of the model.

`BinaryTreeNode` is a mutable node with `left`, `right` and a `parent`
back-pointer. Its setters keep the back-pointer in step, and it offers:

- queries: `isLeaf`, `getSide`, `getSibling`, `getChildren`, `getRoot`, `toJSON`;
- the single-rotation primitive `rotate`;
- three recursive traversals that a visitor can stop early by answering `STOP`;
- a deep `clone`.

`BinarySearchTree` adds a key, an iterative `insert` that rejects
duplicates, and `find`.

The modules:

- `Links`: the heap of node objects is an arena, a map from a handle (`Ref`)
  to the node's record (`NodeRec`). A null link is `None`. A record's key is
  `None` for a plain node and `Some(k)` for a search-tree node. Every field
  rewrite of a setter or of `rotate` is a function from the arena before to
  the arena after (`WithLeft`, `WithRight`, `SetSide`, `SwapWithParent`,
  `Rotated`). The read-only queries are functions of the arena.
- `Shape`: the abstract tree (`Tree`) and `Holds(m, t, p)`, which says the
  arena holds the shape t below p with every link in both directions. Also
  rotation on shapes (`RotateAt`) and the proof that `Rotated` on the arena
  is `RotateAt` on the shape. Also the parent chains that `getRoot` climbs.
- `Traversal`: the three traversals, with the visitor reduced to which calls
  it answers `STOP` to. Also the full visit orders, the prefix and depth
  properties, and `toJSON`'s `children` structure.
- `Search`: keys, the search-tree ordering, and the descent `Locate` that
  `insert` and `find` share. Also the new arena and shape after an
  insertion (`Attached`, `InsertTree`) and their properties.
- `TreeNode`: class `Forest`, whose field `nodes` is the arena and `next` the
  next handle. Every node method is a method of the forest that takes the
  node's handle. The methods that rewrite fields do so on `nodes` in place:
  - `SetLeft`, `SetRight`, `SetSide`, `Rotate` and the swap steps of `Rotate`
    are each proved equal to their `Links` function of the old arena;
  - `NewNode` states the new record and the records of its attached children
    directly;
  - `Clone` is stated through `Mirror` (same shape and keys, node for node)
    and `Holds`.

  `GetRoot` and `GetChildren` only read `nodes`.
- `BinarySearchTree`: `insert` and `find` as module-level methods that take
  the `Forest` and loop over it, and the search-tree `clone`.

Where the source is recursive or reads a few fields (the traversals,
`isLeaf`, `getSide`, `getSibling`, `toJSON`), the model uses functions.
Where it writes fields or loops, it uses methods. The setters, `rotate`,
`getRoot`, `getChildren` and the node `clone` are methods of `Forest`.
`insert`, `find` and the search-tree `clone` are methods of the
`BinarySearchTree` module that take the `Forest`.

Two places where the model follows the code rather than the prose
description of the library:

- `getSide` with a reference in neither slot fails with its own error,
  `NotAChild`, not the invalid-side error of `setSide`. A null reference
  matches an empty slot, so `getSide(null)` on a node without a left child
  answers LEFT.
- `insert` and `find` compare with `>` and `<` first and stop at a node
  without a key, because a JavaScript comparison with `undefined` is false
  both ways. There `find` returns null (`treeNode.ts:300`) and `insert`
  changes nothing. `Locate` ends in `Unkeyed` in that case. In a search
  tree that case never arises (`LocateFindsKey`).

## Model

| member | source | states |
|---|---|---|
| TreeNode.Forest.constructor | libraries/mt_typescript/src/treeNode.ts:19 | an empty heap of node objects is valid |
| TreeNode.Forest.NewNode | libraries/mt_typescript/src/treeNode.ts:21-32 | a new node gets a handle never used before and the given fields; each given child is attached by its setter and gets the new node as parent; no other node changes |
| TreeNode.Forest.SetLeft | libraries/mt_typescript/src/treeNode.ts:173-179 | the heap after `setLeft(c)` is `WithLeft` of the heap before; returns the node itself; validity kept |
| TreeNode.Forest.SetRight | libraries/mt_typescript/src/treeNode.ts:182-188 | the heap after `setRight(c)` is `WithRight` of the heap before; returns the node itself |
| Links.WithLeft | libraries/mt_typescript/src/treeNode.ts:173-179 | the left slot becomes c; c's parent becomes the node; the right slot and the key are unchanged; every other record is unchanged, including the old left child's stale parent |
| Links.WithRight | libraries/mt_typescript/src/treeNode.ts:182-188 | the right slot becomes c; c's parent becomes the node; the left slot and every other record are unchanged |
| Links.WithLeftKeepsLinked | libraries/mt_typescript/src/treeNode.ts:173-179 | setLeft keeps the parent/child linkage invariant when the new child is detached |
| Links.WithRightKeepsLinked | libraries/mt_typescript/src/treeNode.ts:182-188 | setRight keeps the linkage invariant under the same condition |
| Links.WithLeftOfAttachedChildUnlinks | libraries/mt_typescript/src/treeNode.ts:173-179 | setLeft does not detach c from its old parent, so attaching a child that sits in another node's slot breaks the linkage invariant |
| Links.GetSide | libraries/mt_typescript/src/treeNode.ts:191-199 | LEFT exactly when c is in the left slot; RIGHT exactly when c is in the right slot and not the left one; the NotAChild error exactly when it is in neither |
| Links.SetSide | libraries/mt_typescript/src/treeNode.ts:202-210 | succeeds exactly for the LEFT and RIGHT tokens, with the matching setter's result; any other token is the InvalidSide error |
| TreeNode.Forest.SetSide | libraries/mt_typescript/src/treeNode.ts:202-210 | the heap after `setSide` is `Links.SetSide` of the heap before and the node is returned; on an invalid token the error is returned and nothing changes |
| Links.GetSideAfterSetSide | libraries/mt_typescript/src/treeNode.ts:191-210 | after setSide puts c on a side, getSide finds c on that side (for the right side, unless c is also in the left slot, which getSide checks first) |
| Links.SetSideWhereFoundIsIdentity | libraries/mt_typescript/src/treeNode.ts:191-210 | in a linked heap, setSide on the side getSide reports changes nothing |
| Links.ChildList | libraries/mt_typescript/src/treeNode.ts:214-223 | the present children, left before right: 0, 1 or 2 entries, exactly the children, the left one first |
| TreeNode.Forest.GetChildren | libraries/mt_typescript/src/treeNode.ts:214-223 | the list built by the two pushes is `ChildList` of the node |
| Links.IsLeaf | libraries/mt_typescript/src/treeNode.ts:47-49 | a node is a leaf exactly when its child list (`ChildList`) is empty |
| Links.GetSibling | libraries/mt_typescript/src/treeNode.ts:227-238 | null without a parent; the parent's right slot when the node is its left child, else its left slot when the node is its right child; null otherwise |
| Links.SiblingIsMutual | libraries/mt_typescript/src/treeNode.ts:227-238 | in a linked heap, if b is a's sibling then a is b's sibling |
| Links.Rotated | libraries/mt_typescript/src/treeNode.ts:73-98 | rotation keeps the set of nodes, every key and validity; a node without a parent is left as it is |
| Links.SwapWithParent | libraries/mt_typescript/src/treeNode.ts:79-89 | the writes of `rotate` below the grandparent keep the set of nodes, every key and validity |
| Links.ReplaceChild | libraries/mt_typescript/src/treeNode.ts:93-97 | the grandparent's left slot gets the node when it literally held the parent; otherwise the right slot does |
| TreeNode.Forest.Rotate | libraries/mt_typescript/src/treeNode.ts:73-98 | the field-by-field writes of `rotate` give exactly `Rotated` of the old heap |
| TreeNode.Forest.SwapWithParentInPlace | libraries/mt_typescript/src/treeNode.ts:79-89 | the writes up to `node.parent = grandParent` give exactly `SwapWithParent` |
| TreeNode.Forest.SwapLeftChild | libraries/mt_typescript/src/treeNode.ts:80-89 | the same, when the node is its parent's left child |
| TreeNode.Forest.SwapRightChild | libraries/mt_typescript/src/treeNode.ts:84-89 | the same, otherwise |
| Shape.RotatedLeftChild | libraries/mt_typescript/src/treeNode.ts:80-97 | for a left child x of p, the rotated heap gives x p as right child and p's old parent; p gets x's old right child and x as parent; that child gets p; the grandparent's slot gets x; no other record changes |
| Shape.RotatedRightChild | libraries/mt_typescript/src/treeNode.ts:84-97 | the mirror image, for a node that is not its parent's left child |
| Shape.RotateAt | libraries/mt_typescript/src/treeNode.ts:73-98 | rotation on shapes keeps the set of nodes, and the rotated node becomes the root when it was a child of the root |
| Shape.RotateAtKeepsInorder | libraries/mt_typescript/src/treeNode.ts:69-73 | rotation keeps the in-order sequence of nodes |
| Shape.RotateAtLiftsNode | libraries/mt_typescript/src/treeNode.ts:73-98 | rotating a node that is not the root moves it up one level |
| Shape.RotatedHolds | libraries/mt_typescript/src/treeNode.ts:73-98 | rotating a node inside a tree makes the heap hold the rotated shape, with every link in both directions; outside the subtree only the grandparent's slot changes |
| Shape.RotatePreservesTree | libraries/mt_typescript/src/treeNode.ts:73-98 | rotating any node of a consistent tree leaves a consistent tree with the same nodes in the same in-order sequence |
| Shape.HoldsLinks | libraries/mt_typescript/src/treeNode.ts:173-188 | in an arena that holds a tree, each node's children have it as their parent, and each node's parent is the tree's parent or a node of the tree |
| Shape.RotateKeepsLinked | libraries/mt_typescript/src/treeNode.ts:73-98 | rotating a node of a consistent tree keeps the parent/child linkage invariant of the whole arena, the invariant the setters keep |
| Search.RotatePreservesSearchTree | libraries/mt_typescript/src/treeNode.ts:73-98 | rotation keeps the set of keys and the search-tree ordering |
| Shape.InorderIsIds | libraries/mt_typescript/src/treeNode.ts:125-139 | in-order lists every node of a tree exactly once |
| Shape.TreeRootIsChainEnd | libraries/mt_typescript/src/treeNode.ts:159-165 | from every node of a consistent tree the parent chain reaches a parentless node, and the only such node it reaches is the tree's root |
| Shape.ChainEndUnique | libraries/mt_typescript/src/treeNode.ts:161-163 | a parent chain ends at no more than one step count |
| TreeNode.Forest.GetRoot | libraries/mt_typescript/src/treeNode.ts:159-165 | the loop returns the parentless node at the end of the node's parent chain |
| Traversal.VisitPreorder | libraries/mt_typescript/src/treeNode.ts:109-123 | the node, then the left subtree, then the right one, children one level deeper; by `PreorderStopsAtFirst` it equals `CutAtStop(PreorderCalls(t, d), stop)` |
| Traversal.VisitInorder | libraries/mt_typescript/src/treeNode.ts:125-139 | the left subtree, the node, then the right subtree; by `InorderStopsAtFirst` it equals `CutAtStop(InorderCalls(t, d), stop)` |
| Traversal.VisitPostorder | libraries/mt_typescript/src/treeNode.ts:141-156 | the left subtree, the right subtree, then the node; by `PostorderStopsAtFirst` it equals `CutAtStop(PostorderCalls(t, d), stop)` |
| Traversal.CutAtStopIsFirstStop | libraries/mt_typescript/src/treeNode.ts:106-114 | cutting a call sequence at the first STOP gives a prefix; it stops exactly when some call is answered STOP; its last call is that one and no earlier call is; without a STOP it is the whole sequence |
| Traversal.PreorderStopsAtFirst | libraries/mt_typescript/src/treeNode.ts:109-123 | visitPreorder makes exactly the full preorder (node, left, right) cut after the first call answered STOP, and returns STOP exactly then |
| Traversal.InorderStopsAtFirst | libraries/mt_typescript/src/treeNode.ts:125-139 | the same for visitInorder and the order left, node, right |
| Traversal.PostorderStopsAtFirst | libraries/mt_typescript/src/treeNode.ts:141-156 | the same for visitPostorder and the order left, right, node |
| Traversal.PreorderDepths | libraries/mt_typescript/src/treeNode.ts:117-120 | preorder visits only nodes of the tree, each at the start depth plus its depth in the tree |
| Traversal.InorderDepths | libraries/mt_typescript/src/treeNode.ts:130-136 | the same for inorder |
| Traversal.PostorderDepths | libraries/mt_typescript/src/treeNode.ts:147-153 | the same for postorder |
| Traversal.OrdersArePermutations | libraries/mt_typescript/src/treeNode.ts:109-156 | without a STOP the three traversals make the same calls, in different orders |
| Traversal.InorderCallsNodes | libraries/mt_typescript/src/treeNode.ts:125-139 | the nodes of the full inorder visit are the tree's in-order sequence |
| Traversal.RotateKeepsInorderVisit | libraries/mt_typescript/src/treeNode.ts:69-73 | rotation does not change the nodes an inorder visit meets, in order |
| Traversal.StopAtLeftLeaf | libraries/mt_typescript/src/treeNode.ts:114-154 | on a three-node tree whose visitor stops at the left leaf, preorder makes two calls and inorder and postorder one; all three return STOP |
| Traversal.ToJson | libraries/mt_typescript/src/treeNode.ts:62-67 | one object per node with its children's objects, left before right; by `JsonChildrenAreChildList` it has one child object per entry of `getChildren`, and by `JsonSizeIsNodeCount` one object per node of the tree |
| Traversal.JsonChildrenAreChildList | libraries/mt_typescript/src/treeNode.ts:62-67 | `toJSON().children` has one entry per child `getChildren` lists |
| Traversal.JsonSizeIsNodeCount | libraries/mt_typescript/src/treeNode.ts:62-67 | the JSON of a tree has one object per node |
| Search.SearchTreeIffSorted | libraries/mt_typescript/src/treeNode.ts:241-245 | a tree is a search tree exactly when every node has a key and the in-order keys strictly increase |
| Search.Locate | libraries/mt_typescript/src/treeNode.ts:258-274 | the descent ends at a node of the tree |
| Search.LocateSpot | libraries/mt_typescript/src/treeNode.ts:258-274 | where the descent ends: at the key; at a free left slot with a smaller key; at a free right slot with a larger key; or at a node without a key |
| Search.LocateFindsKey | libraries/mt_typescript/src/treeNode.ts:280-303 | in a search tree the descent never meets a node without a key, and finds a node exactly when the tree has the key, a node with that key |
| Search.InsertTree | libraries/mt_typescript/src/treeNode.ts:257-277 | the shape after insert keeps its root and gains exactly the new node when the descent ends at a free slot |
| Search.Attached | libraries/mt_typescript/src/treeNode.ts:257-277 | at a free slot the heap gains one new node with the key, no children and the stopping node as parent, set in that slot; otherwise nothing changes; every key is kept |
| Search.InsertHolds | libraries/mt_typescript/src/treeNode.ts:257-277 | after insert the heap holds the new shape with every link in both directions, and it is still a tree |
| Search.InsertKeepsSearchTree | libraries/mt_typescript/src/treeNode.ts:257-277 | insert into a search tree gives a search tree whose keys are the old keys and k |
| Search.InsertAddsOneNode | libraries/mt_typescript/src/treeNode.ts:257-277 | inserting a key the tree has changes neither the heap nor the shape; inserting a missing key adds exactly the one new node |
| BinarySearchTree.Insert | libraries/mt_typescript/src/treeNode.ts:257-277 | returns the receiver; the heap afterwards is `Attached` of the descent from the root; it holds the new shape, and a search tree stays one with k added to its keys |
| BinarySearchTree.InsertFromRoot | libraries/mt_typescript/src/treeNode.ts:258-274 | the loop from the root leaves the heap `Attached` at the spot `Locate` names |
| BinarySearchTree.Find | libraries/mt_typescript/src/treeNode.ts:280-303 | the loop returns the node where the descent finds the key and null otherwise; in a search tree, a node exactly when the key is present, and then the node with that key |
| TreeNode.Forest.Clone | libraries/mt_typescript/src/treeNode.ts:35-44 | the copy is all new nodes with no parent, holds its shape with links in both directions, is a tree, mirrors the original node for node with the same keys, and leaves every existing node unchanged |
| TreeNode.Forest.CloneChildren | libraries/mt_typescript/src/treeNode.ts:37-42 | the left child step, then the right one, on the new node c. c gets the roots of both cloned subtrees as children. Each clone hangs below c with links in both directions and mirrors the matching original subtree. The two clones are disjoint new nodes, and no other existing node changes. |
| TreeNode.Forest.CloneInto | libraries/mt_typescript/src/treeNode.ts:37-42 | a present child is cloned and the clone set on the same side with the setter, and the new node becomes its parent; an absent child adds nothing |
| TreeNode.MirrorKeepsKeys | libraries/mt_typescript/src/treeNode.ts:250-254 | a copy has the same keys, and is a search tree exactly when the original is one |
| TreeNode.MirrorKeepsInorderKeys | libraries/mt_typescript/src/treeNode.ts:35-44 | a copy has the same in-order sequence of keys |
| TreeNode.MirrorKeepsSize | libraries/mt_typescript/src/treeNode.ts:35-44 | a copy has as many nodes as the original |
| BinarySearchTree.Clone | libraries/mt_typescript/src/treeNode.ts:250-254 | the clone of a search-tree node has its key; it is a new tree with no parent and the same shape and keys node for node (`Mirror`), so the same number of nodes and the same keys in the same in-order; it is a search tree exactly when the original is; its nodes are the only new records and the original nodes are unchanged |

## Left out

- `toString` is not modelled. It relies on JavaScript's string coercion of nodes and of null.
- `getName` and the `name` field of `toJSON` are a constant tag. Only the `children` structure is modelled.
- The `data` argument threaded through the traversals is not modelled.
- The visitor's side effects are not modelled. The visitor is reduced to which calls it answers STOP to.
- A missing (falsy) visit function is not modelled. A traversal always has a visitor.
- Keys are integers. JavaScript's mixed `string | number` comparisons are not modelled.
- `clone` creates the new node through `this.constructor` reflection. The model instead copies the record's key, which is None for a plain node. The source's search-tree `clone` then sets the copy's key again (`treeNode.ts:252`). The model needs no such step, because `Forest.Clone` already copies the key with the record.
- `rotate` returns the assignment's value. That value is dropped, because every caller ignores it.
- Object identity is a handle into an arena. Garbage collection and the ownership of subtrees are not modelled.
- TreeNode.Forest.GetRoot: requires a finite parent chain, because on a cycle of parent links the program loops forever.
- BinarySearchTree.Insert: requires that the receiver is in a tree the arena holds (`Holds` and `Unique`). Only consistent, unshared trees are modelled. The program's behaviour on stale parent pointers, shared nodes or cyclic links is not.
- BinarySearchTree.Find: has the same requirement, for the same reason.
- TreeNode.Forest.Clone: requires a consistent, unshared tree below the node, for the same reason. On cyclic child links the program's recursion does not end.
- Traversals and `toJSON` run on a finite tree shape the arena holds. Cyclic child links are not modelled.
- Traversal.VisitPreorder: the start depth is a natural number, as are the depths of the calls. A negative start depth is not modelled. The same applies to VisitInorder and VisitPostorder.
- `tools/release.ts` is not part of this model. It automates releases with external packages and console output.
