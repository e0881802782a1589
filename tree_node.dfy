/**
 * The node objects and their in-place methods.
 *
 * A `Forest` holds every node object of a program run: `nodes` maps each
 * object's handle to its fields, and `next` is the handle the next `new`
 * receives.  Each method of a node object is a method of the forest that
 * takes the node's handle; what it does to the fields is stated as a
 * function of `Links`, and what that does to the tree in `Shape`, `Search`
 * and the lemmas below.
 */
module TreeNode {
  import opened Links
  import opened Shape
  import opened Search

  class Forest {
    /** The fields of every node object, by handle. */
    var nodes: Store
    /** The handle the next new node object receives. */
    var next: Ref

    /** Every link names a node object, and every handle in use is below next. */
    ghost predicate Valid()
      reads this
    {
      Closed(nodes) && forall n :: n in nodes ==> n < next
    }

    constructor ()
      ensures Valid() && nodes == map[] && next == 0
    {
      nodes := map[];
      next := 0;
    }

    /**
     * `new BinaryTreeNode(left, right, parent)`, with key None, and
     * `new BinarySearchTree(k)`, with no links and key Some(k): the fields
     * are set as given, then each present child is attached with the
     * setter, which makes the new node its parent.
     */
    method NewNode(left: Option<Ref>, right: Option<Ref>, parent: Option<Ref>, key: Option<int>) returns (n: Ref)
      requires Valid()
      requires LinksWithin(NodeRec(left, right, parent, key), nodes)
      modifies this
      ensures Valid() && n == old(next) && n !in old(nodes) && next == old(next) + 1
      ensures nodes.Keys == old(nodes).Keys + {n}
      ensures nodes[n] == NodeRec(left, right, parent, key)
      ensures left.Some? ==> nodes[left.value] == old(nodes)[left.value].(parent := Some(n))
      ensures right.Some? ==> nodes[right.value] == old(nodes)[right.value].(parent := Some(n))
      ensures forall q :: q in old(nodes) && Some(q) != left && Some(q) != right ==> nodes[q] == old(nodes)[q]
    {
      n := next;
      AddKeepsClosed(nodes, n, NodeRec(left, right, parent, key));
      nodes := nodes[n := NodeRec(left, right, parent, key)];
      next := next + 1;
      if left.Some? {
        var _ := SetLeft(n, left);
      }
      if right.Some? {
        var _ := SetRight(n, right);
      }
    }

    /** `n.setLeft(c)`, which returns n. */
    method SetLeft(n: Ref, c: Option<Ref>) returns (self: Ref)
      requires Valid() && n in nodes && (c.Some? ==> c.value in nodes)
      modifies this
      ensures Valid() && self == n && next == old(next)
      ensures nodes == WithLeft(old(nodes), n, c)
    {
      nodes := nodes[n := nodes[n].(left := c)];
      if c.Some? {
        nodes := nodes[c.value := nodes[c.value].(parent := Some(n))];
      }
      self := n;
    }

    /** `n.setRight(c)`, which returns n. */
    method SetRight(n: Ref, c: Option<Ref>) returns (self: Ref)
      requires Valid() && n in nodes && (c.Some? ==> c.value in nodes)
      modifies this
      ensures Valid() && self == n && next == old(next)
      ensures nodes == WithRight(old(nodes), n, c)
    {
      nodes := nodes[n := nodes[n].(right := c)];
      if c.Some? {
        nodes := nodes[c.value := nodes[c.value].(parent := Some(n))];
      }
      self := n;
    }

    /**
     * `n.setSide(c, side)`: the setter the side token names, returning n,
     * or the InvalidSide error with nothing changed.
     */
    method SetSide(n: Ref, c: Option<Ref>, side: string) returns (r: Result<Ref>)
      requires Valid() && n in nodes && (c.Some? ==> c.value in nodes)
      modifies this
      ensures Valid() && next == old(next)
      ensures r.Ok? <==> Links.SetSide(old(nodes), n, c, side).Ok?
      ensures r.Ok? ==> r.value == n && nodes == Links.SetSide(old(nodes), n, c, side).value
      ensures r.Err? ==> r.error == InvalidSide && nodes == old(nodes)
    {
      if side == LEFT {
        var self := SetLeft(n, c);
        r := Ok(self);
      } else if side == RIGHT {
        var self := SetRight(n, c);
        r := Ok(self);
      } else {
        r := Err(InvalidSide);
      }
    }

    /**
     * `x.rotate()`: x swaps places with its parent, field by field in the
     * order the program writes them.
     */
    method Rotate(x: Ref)
      requires Valid() && x in nodes
      modifies this
      ensures Valid() && next == old(next)
      ensures nodes == Rotated(old(nodes), x)
    {
      if nodes[x].parent.None? {
        return;
      }
      var p := nodes[x].parent.value;
      assert LinksWithin(nodes[x], nodes);
      var g := nodes[p].parent;
      SwapWithParentInPlace(x, p);
      if g.None? {
        return;
      }
      var gp := g.value;
      if nodes[gp].left == Some(p) {
        nodes := nodes[gp := nodes[gp].(left := Some(x))];
      } else {
        nodes := nodes[gp := nodes[gp].(right := Some(x))];
      }
    }

    /** The writes of `rotate` below the grandparent. */
    method SwapWithParentInPlace(x: Ref, p: Ref)
      requires Valid() && x in nodes && p in nodes
      modifies this
      ensures Valid() && next == old(next)
      ensures nodes == SwapWithParent(old(nodes), x, p)
    {
      if nodes[p].left == Some(x) {
        SwapLeftChild(x, p);
      } else {
        SwapRightChild(x, p);
      }
    }

    /** Those writes when x is p's left child: x's right child moves over to p. */
    method SwapLeftChild(x: Ref, p: Ref)
      requires Valid() && x in nodes && p in nodes && nodes[p].left == Some(x)
      modifies this
      ensures Valid() && next == old(next)
      ensures nodes == SwapWithParent(old(nodes), x, p)
    {
      assert LinksWithin(nodes[x], nodes);
      var g := nodes[p].parent;
      var _ := SetLeft(p, nodes[x].right);
      nodes := nodes[x := nodes[x].(right := Some(p))];
      nodes := nodes[p := nodes[p].(parent := Some(x))];
      nodes := nodes[x := nodes[x].(parent := g)];
      assert nodes == SwapWithParent(old(nodes), x, p);
    }

    /** Those writes otherwise: x's left child moves over to p. */
    method SwapRightChild(x: Ref, p: Ref)
      requires Valid() && x in nodes && p in nodes && nodes[p].left != Some(x)
      modifies this
      ensures Valid() && next == old(next)
      ensures nodes == SwapWithParent(old(nodes), x, p)
    {
      assert LinksWithin(nodes[x], nodes);
      var g := nodes[p].parent;
      var _ := SetRight(p, nodes[x].left);
      nodes := nodes[x := nodes[x].(left := Some(p))];
      nodes := nodes[p := nodes[p].(parent := Some(x))];
      nodes := nodes[x := nodes[x].(parent := g)];
      assert nodes == SwapWithParent(old(nodes), x, p);
    }

    /**
     * `n.getRoot()`: follow parent links until a node without one.  The
     * loop ends when some number k of steps reaches such a node; on a
     * parent chain with a cycle the program loops forever.
     */
    method GetRoot(n: Ref, ghost k: nat) returns (root: Ref)
      requires Valid() && n in nodes && ReachesRoot(nodes, n, k)
      ensures Up(nodes, n, k) == Some(root)
      ensures root in nodes && nodes[root].parent.None?
    {
      root := n;
      ghost var i := 0;
      while nodes[root].parent.Some?
        invariant root in nodes && i <= k && Up(nodes, n, i) == Some(root)
        decreases k - i
      {
        assert LinksWithin(nodes[root], nodes);
        root := nodes[root].parent.value;
        i := i + 1;
      }
      ChainEndUnique(nodes, n, i, k);
    }

    /** `n.getChildren()`: push the left child, then the right one, when present. */
    method GetChildren(n: Ref) returns (cs: seq<Ref>)
      requires n in nodes
      ensures cs == ChildList(nodes[n])
    {
      cs := [];
      if nodes[n].left.Some? {
        cs := cs + [nodes[n].left.value];
      }
      if nodes[n].right.Some? {
        cs := cs + [nodes[n].right.value];
      }
    }

    /**
     * `n.clone()` on the subtree s the arena holds below p: a new node of
     * the same kind and key, with clones of the children attached by the
     * setters.  The copy is all new nodes, holds the same shape with the
     * same keys, has no parent, and leaves every existing node as it was.
     */
    method Clone(n: Ref, ghost s: Tree, ghost p: Option<Ref>) returns (c: Ref, ghost copy: Tree)
      requires Valid() && Holds(nodes, s, p) && Unique(s) && s.Node? && s.id == n
      modifies this
      ensures Valid() && old(next) < next
      ensures nodes.Keys == old(nodes).Keys + Ids(copy)
      ensures forall i :: i in Ids(copy) ==> old(next) <= i < next
      ensures forall q :: q in old(nodes) ==> nodes[q] == old(nodes)[q]
      ensures copy.Node? && copy.id == c && Holds(nodes, copy, None) && Unique(copy)
      ensures Mirror(old(nodes), s, nodes, copy)
      decreases s, 1
    {
      HoldsInArena(nodes, s, p);
      ghost var m0 := nodes;
      c := NewNode(None, None, None, nodes[n].key);
      ghost var m1 := nodes;
      assert m1 == m0[c := NodeRec(None, None, None, m0[n].key)];
      HoldsFrame(m0, m1, s.left, Some(n));
      HoldsFrame(m0, m1, s.right, Some(n));
      ghost var lc, rc := CloneChildren(c, n, s);
      copy := Node(lc, c, rc);
      CloneGrowth(m0, m1, nodes, c, lc, rc, old(next), next);
      MirrorSource(m1, s.left, m0, nodes, lc);
      MirrorSource(m1, s.right, m0, nodes, rc);
      ClonePartsJoin(m0, nodes, s, lc, c, rc);
    }

    /** The two child steps of `clone`, left then right, onto the new node c. */
    method CloneChildren(c: Ref, n: Ref, ghost s: Tree) returns (ghost lc: Tree, ghost rc: Tree)
      requires Valid() && s.Node? && s.id == n && n in nodes && Unique(s) && c !in Ids(s)
      requires Holds(nodes, s.left, Some(n)) && Holds(nodes, s.right, Some(n))
      requires c in nodes && nodes[c].left.None? && nodes[c].right.None?
      requires nodes[n].left == RootOf(s.left) && nodes[n].right == RootOf(s.right)
      modifies this
      ensures Valid() && old(next) <= next
      ensures nodes.Keys == old(nodes).Keys + Ids(lc) + Ids(rc)
      ensures forall i :: i in Ids(lc) + Ids(rc) ==> old(next) <= i < next
      ensures forall q :: q in old(nodes) && q != c ==> nodes[q] == old(nodes)[q]
      ensures nodes[c] == old(nodes)[c].(left := RootOf(lc), right := RootOf(rc))
      ensures Holds(nodes, lc, Some(c)) && Holds(nodes, rc, Some(c)) && Unique(lc) && Unique(rc)
      ensures Ids(lc) !! Ids(rc) && c !in Ids(lc) + Ids(rc)
      ensures Mirror(old(nodes), s.left, nodes, lc) && Mirror(old(nodes), s.right, nodes, rc)
      decreases s, 0
    {
      HoldsInArena(nodes, s.right, Some(n));
      assert Unique(s.left) && Unique(s.right) && c !in Ids(s.left) && c !in Ids(s.right);
      ghost var m1, n1 := nodes, next;
      lc := CloneInto(c, nodes[n].left, s.left, n, true);
      ghost var m2, n2 := nodes, next;
      HoldsFrame(m1, m2, s.right, Some(n));
      rc := CloneInto(c, nodes[n].right, s.right, n, false);
      assert forall i :: i in Ids(lc) ==> n1 <= i < n2;
      HoldsFrame(m2, nodes, lc, Some(c));
      MirrorFrame(m1, s.left, m2, m1, nodes, lc);
      MirrorFrame(m2, s.right, nodes, m1, nodes, rc);
    }

    /**
     * The child step of `clone`: when the original has a child (the root of
     * s, a subtree hanging below n), clone it and attach the clone to c on
     * the same side with the setter; otherwise do nothing.
     */
    method CloneInto(c: Ref, child: Option<Ref>, ghost s: Tree, ghost n: Ref, left: bool) returns (ghost cc: Tree)
      requires Valid() && c in nodes && c !in Ids(s)
      requires Holds(nodes, s, Some(n)) && Unique(s) && RootOf(s) == child
      requires if left then nodes[c].left.None? else nodes[c].right.None?
      modifies this
      ensures Valid() && old(next) <= next
      ensures nodes.Keys == old(nodes).Keys + Ids(cc)
      ensures forall i :: i in Ids(cc) ==> old(next) <= i < next
      ensures forall q :: q in old(nodes) && q != c ==> nodes[q] == old(nodes)[q]
      ensures nodes[c] == if left then old(nodes)[c].(left := RootOf(cc)) else old(nodes)[c].(right := RootOf(cc))
      ensures Holds(nodes, cc, Some(c)) && Unique(cc)
      ensures Mirror(old(nodes), s, nodes, cc)
      decreases s, 2
    {
      cc := Nil;
      if child.Some? {
        var k;
        k, cc := Clone(child.value, s, Some(n));
        ghost var m1 := nodes;
        if left {
          var _ := SetLeft(c, Some(k));
        } else {
          var _ := SetRight(c, Some(k));
        }
        HoldsReparent(m1, nodes, cc, None, Some(c));
        MirrorFrame(old(nodes), s, m1, old(nodes), nodes, cc);
      }
    }
  }

  /**
   * c, in arena m', is a copy of s, in arena m: the same shape, node for
   * node with the same keys.
   */
  ghost predicate Mirror(m: Store, s: Tree, m': Store, c: Tree) {
    match s
    case Nil => c.Nil?
    case Node(sl, si, sr) =>
      c.Node? && si in m && c.id in m' && m'[c.id].key == m[si].key &&
      Mirror(m, sl, m', c.left) && Mirror(m, sr, m', c.right)
  }

  /** The copy of a node joined with the copies of its subtrees is a copy of the whole. */
  lemma ClonePartsJoin(m0: Store, m: Store, s: Tree, lc: Tree, c: Ref, rc: Tree)
    requires s.Node? && s.id in m0 && c in m
    requires m[c] == NodeRec(RootOf(lc), RootOf(rc), None, m0[s.id].key)
    requires Holds(m, lc, Some(c)) && Holds(m, rc, Some(c)) && Unique(lc) && Unique(rc)
    requires c !in Ids(lc) && c !in Ids(rc) && Ids(lc) !! Ids(rc)
    requires Mirror(m0, s.left, m, lc) && Mirror(m0, s.right, m, rc)
    ensures Holds(m, Node(lc, c, rc), None) && Unique(Node(lc, c, rc))
    ensures Mirror(m0, s, m, Node(lc, c, rc))
  {
  }

  /** A copy of s stays one in another arena with the same records for the nodes of s. */
  lemma {:induction false} MirrorSource(m1: Store, s: Tree, m3: Store, m: Store, c: Tree)
    requires Mirror(m1, s, m, c)
    requires forall i :: i in Ids(s) ==> i in m1 && i in m3 && m3[i] == m1[i]
    ensures Mirror(m3, s, m, c)
  {
    match s
    case Nil =>
    case Node(sl, si, sr) =>
      MirrorSource(m1, sl, m3, m, c.left);
      MirrorSource(m1, sr, m3, m, c.right);
  }

  /** The arena after `clone` holds the old nodes, the new root and the nodes of both cloned subtrees. */
  lemma CloneGrowth(m0: Store, m1: Store, m: Store, c: Ref, lc: Tree, rc: Tree, n0: Ref, n: Ref)
    requires m1.Keys == m0.Keys + {c}
    requires m.Keys == m1.Keys + Ids(lc) + Ids(rc)
    requires n0 == c < n && forall i :: i in Ids(lc) + Ids(rc) ==> c + 1 <= i < n
    ensures m.Keys == m0.Keys + Ids(Node(lc, c, rc))
    ensures forall i :: i in Ids(Node(lc, c, rc)) ==> n0 <= i < n
  {
    forall i | i in Ids(Node(lc, c, rc)) && i != c
      ensures n0 <= i < n
    {
      assert i in Ids(lc) + Ids(rc);
    }
  }

  /** A copy stays a copy while the nodes on both sides keep their keys. */
  lemma {:induction false} MirrorFrame(m1: Store, s: Tree, m2: Store, m3: Store, m4: Store, c: Tree)
    requires Mirror(m1, s, m2, c)
    requires forall i :: i in Ids(s) && i in m1 ==> i in m3 && m3[i].key == m1[i].key
    requires forall i :: i in Ids(c) && i in m2 ==> i in m4 && m4[i].key == m2[i].key
    ensures Mirror(m3, s, m4, c)
  {
    match s
    case Nil =>
    case Node(sl, si, sr) =>
      MirrorFrame(m1, sl, m2, m3, m4, c.left);
      MirrorFrame(m1, sr, m2, m3, m4, c.right);
  }

  /** A copy has the same keys, and is a search tree exactly when the original is one. */
  lemma {:induction false} MirrorKeepsKeys(m: Store, s: Tree, m': Store, c: Tree)
    requires Mirror(m, s, m', c)
    ensures Keys(m', c) == Keys(m, s)
    ensures SearchTree(m', c) == SearchTree(m, s)
  {
    match s
    case Nil =>
    case Node(sl, si, sr) =>
      MirrorKeepsKeys(m, sl, m', c.left);
      MirrorKeepsKeys(m, sr, m', c.right);
  }

  /** A copy has the same keys in in-order. */
  lemma {:induction false} MirrorKeepsInorderKeys(m: Store, s: Tree, m': Store, c: Tree)
    requires Mirror(m, s, m', c)
    ensures InorderKeys(m', c) == InorderKeys(m, s)
  {
    match s
    case Nil =>
    case Node(sl, si, sr) =>
      MirrorKeepsInorderKeys(m, sl, m', c.left);
      MirrorKeepsInorderKeys(m, sr, m', c.right);
      InorderKeysNode(m, sl, si, sr);
      InorderKeysNode(m', c.left, c.id, c.right);
  }

  /** A copy of a tree that is itself a tree has as many nodes. */
  lemma {:induction false} MirrorKeepsSize(m: Store, s: Tree, m': Store, c: Tree)
    requires Mirror(m, s, m', c) && Unique(s) && Unique(c)
    ensures |Ids(c)| == |Ids(s)|
  {
    match s
    case Nil =>
    case Node(sl, si, sr) =>
      MirrorKeepsSize(m, sl, m', c.left);
      MirrorKeepsSize(m, sr, m', c.right);
      assert |Ids(sl) + {si}| == |Ids(sl)| + 1;
      assert |Ids(sl) + {si} + Ids(sr)| == |Ids(sl) + {si}| + |Ids(sr)|;
      assert |Ids(c.left) + {c.id}| == |Ids(c.left)| + 1;
      assert |Ids(c.left) + {c.id} + Ids(c.right)| == |Ids(c.left) + {c.id}| + |Ids(c.right)|;
  }
}
