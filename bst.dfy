/**
 * The operations of `BinarySearchTree`: `insert` and `find`, both a descent
 * from the root of the tree the node is in.  A search-tree node is a node
 * of the arena whose record has a key; `clone` of a search-tree node is
 * `Forest.Clone`, which copies the key with the record.
 */
module BinarySearchTree {
  import opened Links
  import opened Shape
  import opened Search
  import opened TreeNode

  /**
   * `self.insert(k)`: from the root of the tree self is in, go right while k
   * is larger and left while it is smaller; hang a new node with key k in
   * the free slot where the descent leaves the tree, and stop without a
   * change at an equal key or a node without one.  Returns self.
   */
  method Insert(f: Forest, self: Ref, k: int, ghost t: Tree) returns (r: Ref)
    requires f.Valid() && Holds(f.nodes, t, None) && Unique(t) && self in Ids(t)
    modifies f
    ensures r == self && f.Valid()
    ensures Locate(old(f.nodes), t, k).node in old(f.nodes) && old(f.next) !in old(f.nodes)
    ensures f.nodes == Attached(old(f.nodes), Locate(old(f.nodes), t, k), k, old(f.next))
    ensures Holds(f.nodes, InsertTree(old(f.nodes), t, k, old(f.next)), None)
    ensures Unique(InsertTree(old(f.nodes), t, k, old(f.next)))
    ensures SearchTree(old(f.nodes), t) ==>
      SearchTree(f.nodes, InsertTree(old(f.nodes), t, k, old(f.next))) &&
      Keys(f.nodes, InsertTree(old(f.nodes), t, k, old(f.next))) == Keys(old(f.nodes), t) + {k}
  {
    ghost var m, slot := f.nodes, f.next;
    HoldsInArena(m, t, None);
    TreeRootIsChainEnd(m, t, self, Depth(t, self));
    var root := f.GetRoot(self, Depth(t, self));
    InsertFromRoot(f, root, k, t);
    InsertHolds(m, t, None, k, slot);
    if SearchTree(m, t) {
      InsertKeepsSearchTree(m, t, k, slot);
    }
    r := self;
  }

  /** The loop of `insert`, from the root of t. */
  method InsertFromRoot(f: Forest, root: Ref, k: int, ghost t: Tree)
    requires f.Valid() && Holds(f.nodes, t, None) && t.Node? && t.id == root
    modifies f
    ensures f.Valid() && old(f.next) !in old(f.nodes) && Locate(old(f.nodes), t, k).node in old(f.nodes)
    ensures f.nodes == Attached(old(f.nodes), Locate(old(f.nodes), t, k), k, old(f.next))
  {
    ghost var m, slot := f.nodes, f.next;
    LocateSpot(m, t, None, k);
    var node := root;
    ghost var sub, ps := t, None;
    while true
      invariant f.nodes == m && f.next == slot && f.Valid()
      invariant sub.Node? && sub.id == node && Holds(m, sub, ps)
      invariant Locate(m, sub, k) == Locate(m, t, k)
      decreases sub
    {
      var key := f.nodes[node].key;
      if key.Some? && k > key.value {
        if f.nodes[node].right.None? {
          var n := f.NewNode(None, None, None, Some(k));
          assert f.nodes == m[n := Leaf(k)];
          var _ := f.SetRight(node, Some(n));
          break;
        }
        node := f.nodes[node].right.value;
        sub, ps := sub.right, Some(sub.id);
      } else if key.Some? && k < key.value {
        if f.nodes[node].left.None? {
          var n := f.NewNode(None, None, None, Some(k));
          assert f.nodes == m[n := Leaf(k)];
          var _ := f.SetLeft(node, Some(n));
          break;
        }
        node := f.nodes[node].left.value;
        sub, ps := sub.left, Some(sub.id);
      } else {
        break;
      }
    }
  }

  /**
   * `self.find(k)`: the same descent as `insert`; the node with key k where
   * it stops at one, and null (None) where it leaves the tree or meets a
   * node without a key.  In a search tree that is exactly: the node with
   * key k when the tree has k, and null otherwise.
   */
  method Find(f: Forest, self: Ref, k: int, ghost t: Tree) returns (r: Option<Ref>)
    requires f.Valid() && Holds(f.nodes, t, None) && Unique(t) && self in Ids(t)
    ensures r == (if Locate(f.nodes, t, k).Found? then Some(Locate(f.nodes, t, k).node) else None)
    ensures SearchTree(f.nodes, t) ==>
      (r.Some? <==> k in Keys(f.nodes, t)) &&
      (r.Some? ==> r.value in Ids(t) && r.value in f.nodes && f.nodes[r.value].key == Some(k))
  {
    ghost var m := f.nodes;
    HoldsInArena(m, t, None);
    LocateSpot(m, t, None, k);
    if SearchTree(m, t) {
      LocateFindsKey(m, t, k);
    }
    TreeRootIsChainEnd(m, t, self, Depth(t, self));
    var node := f.GetRoot(self, Depth(t, self));
    ghost var sub, ps := t, None;
    r := None;
    while true
      invariant sub.Node? && sub.id == node && Holds(m, sub, ps)
      invariant Locate(m, sub, k) == Locate(m, t, k)
      decreases sub
    {
      var key := f.nodes[node].key;
      if key.Some? && k > key.value {
        if f.nodes[node].right.None? {
          return None;
        }
        node := f.nodes[node].right.value;
        sub, ps := sub.right, Some(sub.id);
        continue;
      }
      if key.Some? && k < key.value {
        if f.nodes[node].left.None? {
          return None;
        }
        node := f.nodes[node].left.value;
        sub, ps := sub.left, Some(sub.id);
        continue;
      }
      if key == Some(k) {
        return Some(node);
      }
      return None;
    }
  }

  /**
   * `self.clone()` of a search-tree node: `Forest.Clone`, which copies the
   * key with the record.  The copy is a tree of new nodes with no parent,
   * of the same shape with the same key node for node (`Mirror`), so with
   * the same number of nodes and the same keys in the same in-order, and is
   * a search tree exactly when the original is one; its nodes are the only
   * new records and the original nodes are left as they were.
   */
  method Clone(f: Forest, self: Ref, ghost s: Tree, ghost p: Option<Ref>) returns (c: Ref, ghost copy: Tree)
    requires f.Valid() && Holds(f.nodes, s, p) && Unique(s) && s.Node? && s.id == self
    modifies f
    ensures f.Valid() && c !in old(f.nodes) && c in f.nodes
    ensures copy.Node? && copy.id == c && Holds(f.nodes, copy, None) && Unique(copy)
    ensures Ids(copy) !! old(f.nodes).Keys
    ensures f.nodes.Keys == old(f.nodes).Keys + Ids(copy)
    ensures Mirror(old(f.nodes), s, f.nodes, copy)
    ensures forall q :: q in old(f.nodes) ==> q in f.nodes && f.nodes[q] == old(f.nodes)[q]
    ensures f.nodes[c].key == old(f.nodes)[self].key
    ensures |Ids(copy)| == |Ids(s)|
    ensures Keys(f.nodes, copy) == Keys(old(f.nodes), s)
    ensures InorderKeys(f.nodes, copy) == InorderKeys(old(f.nodes), s)
    ensures SearchTree(f.nodes, copy) == SearchTree(old(f.nodes), s)
  {
    c, copy := f.Clone(self, s, p);
    MirrorKeepsSize(old(f.nodes), s, f.nodes, copy);
    MirrorKeepsKeys(old(f.nodes), s, f.nodes, copy);
    MirrorKeepsInorderKeys(old(f.nodes), s, f.nodes, copy);
  }
}
