/**
 * The tree that a group of node records forms, and what rotation does to it.
 *
 * `Tree` is the abstract shape: nodes named by their handles, each with a
 * left and a right subtree.  `Holds(m, t, p)` says that the arena m really
 * links up as t: every node's left and right slots name the roots of its
 * subtrees, every node's parent slot names the node above it, and the root's
 * parent slot is p.  So both directions of the parent/child linkage hold for
 * every node of t.
 */
module Shape {
  import opened Links

  datatype Tree = Nil | Node(left: Tree, id: Ref, right: Tree)

  function RootOf(t: Tree): Option<Ref> {
    if t.Nil? then None else Some(t.id)
  }

  function Ids(t: Tree): set<Ref> {
    match t
    case Nil => {}
    case Node(l, i, r) => Ids(l) + {i} + Ids(r)
  }

  /** No node appears twice: the shape is a tree, not a shared graph. */
  predicate Unique(t: Tree) {
    match t
    case Nil => true
    case Node(l, i, r) =>
      Unique(l) && Unique(r) && i !in Ids(l) && i !in Ids(r) && Ids(l) !! Ids(r)
  }

  /** The nodes in in-order: left subtree, the node, right subtree. */
  function Inorder(t: Tree): seq<Ref> {
    match t
    case Nil => []
    case Node(l, i, r) => Inorder(l) + [i] + Inorder(r)
  }

  predicate Holds(m: Store, t: Tree, p: Option<Ref>) {
    match t
    case Nil => true
    case Node(l, i, r) =>
      i in m && m[i].left == RootOf(l) && m[i].right == RootOf(r) && m[i].parent == p &&
      Holds(m, l, Some(i)) && Holds(m, r, Some(i))
  }

  /** x is a child of the root of t. */
  predicate ChildOfRoot(t: Tree, x: Ref) {
    t.Node? && (RootOf(t.left) == Some(x) || RootOf(t.right) == Some(x))
  }

  // ---- Basic facts ----

  /** The in-order sequence lists exactly the nodes of the tree... */
  lemma {:induction false} InorderMembers(t: Tree)
    ensures forall i :: i in Inorder(t) <==> i in Ids(t)
  {
    match t
    case Nil =>
    case Node(l, i, r) =>
      InorderMembers(l);
      InorderMembers(r);
  }

  /** ...and, in a tree, each of them once. */
  lemma {:induction false} InorderIsIds(t: Tree)
    requires Unique(t)
    ensures |Inorder(t)| == |Ids(t)|
    ensures forall i :: i in Inorder(t) <==> i in Ids(t)
  {
    InorderMembers(t);
    match t
    case Nil =>
    case Node(l, i, r) =>
      InorderIsIds(l);
      InorderIsIds(r);
      var left := Ids(l) + {i};
      assert |left| == |Ids(l)| + 1;
      assert left !! Ids(r);
      assert |left + Ids(r)| == |left| + |Ids(r)|;
  }

  lemma {:induction false} HoldsInArena(m: Store, t: Tree, p: Option<Ref>)
    requires Holds(m, t, p)
    ensures Ids(t) <= m.Keys
  {
    match t
    case Nil =>
    case Node(l, i, r) =>
      HoldsInArena(m, l, Some(i));
      HoldsInArena(m, r, Some(i));
  }

  /** A tree keeps holding in an arena that has the same records for its nodes. */
  lemma {:induction false} HoldsFrame(m: Store, m': Store, t: Tree, p: Option<Ref>)
    requires Holds(m, t, p)
    requires forall i :: i in Ids(t) ==> i in m && i in m' && m'[i] == m[i]
    ensures Holds(m', t, p)
  {
    match t
    case Nil =>
    case Node(l, i, r) =>
      HoldsFrame(m, m', l, Some(i));
      HoldsFrame(m, m', r, Some(i));
  }

  /** Changing only the root's parent slot re-parents the whole tree. */
  lemma {:induction false} HoldsReparent(m: Store, m': Store, t: Tree, p: Option<Ref>, p': Option<Ref>)
    requires Holds(m, t, p) && Unique(t) && t.Node?
    requires forall i :: i in Ids(t) && i != t.id ==> i in m && i in m' && m'[i] == m[i]
    requires t.id in m' && m'[t.id] == m[t.id].(parent := p')
    ensures Holds(m', t, p')
  {
    HoldsFrame(m, m', t.left, Some(t.id));
    HoldsFrame(m, m', t.right, Some(t.id));
  }

  // ---- Rotation on the abstract tree ----

  /**
   * The shape after rotating node x: where x is the left child of some p,
   * the subtree (a x b) p c becomes a x (b p c); where it is a right child,
   * a p (b x c) becomes (a p b) x c.  A root x, or an x not in t, changes
   * nothing.
   */
  function RotateAt(t: Tree, x: Ref): (r: Tree)
    ensures Ids(r) == Ids(t)
    ensures t.Node? ==> r.Node? && RootOf(r) == if ChildOfRoot(t, x) then Some(x) else RootOf(t)
  {
    match t
    case Nil => Nil
    case Node(l, p, rt) =>
      if l.Node? && l.id == x then Node(l.left, x, Node(l.right, p, rt))
      else if rt.Node? && rt.id == x then Node(Node(l, p, rt.left), x, rt.right)
      else Node(RotateAt(l, x), p, RotateAt(rt, x))
  }

  lemma {:induction false} RotateAtAbsent(t: Tree, x: Ref)
    requires x !in Ids(t)
    ensures RotateAt(t, x) == t
  {
    match t
    case Nil =>
    case Node(l, i, r) =>
      RotateAtAbsent(l, x);
      RotateAtAbsent(r, x);
  }

  /** Rotation keeps the in-order sequence of nodes. */
  lemma {:induction false} RotateAtKeepsInorder(t: Tree, x: Ref)
    ensures Inorder(RotateAt(t, x)) == Inorder(t)
  {
    match t
    case Nil =>
    case Node(l, p, r) =>
      if l.Node? && l.id == x {
        assert Inorder(t) == Inorder(l.left) + [x] + Inorder(l.right) + [p] + Inorder(r);
      } else if r.Node? && r.id == x {
        assert Inorder(t) == Inorder(l) + [p] + Inorder(r.left) + [x] + Inorder(r.right);
      } else {
        RotateAtKeepsInorder(l, x);
        RotateAtKeepsInorder(r, x);
      }
  }

  /** Rotation keeps a tree a tree. */
  lemma {:induction false} RotateAtKeepsUnique(t: Tree, x: Ref)
    requires Unique(t)
    ensures Unique(RotateAt(t, x))
  {
    match t
    case Nil =>
    case Node(l, p, r) =>
      if l.Node? && l.id == x {
      } else if r.Node? && r.id == x {
      } else {
        RotateAtKeepsUnique(l, x);
        RotateAtKeepsUnique(r, x);
      }
  }

  /** The depth of node n below the root of t. */
  function Depth(t: Tree, n: Ref): (d: nat)
    requires n in Ids(t)
    ensures d == 0 <==> n == t.id
  {
    if n == t.id then 0
    else if n in Ids(t.left) then 1 + Depth(t.left, n)
    else 1 + Depth(t.right, n)
  }

  /** Rotating a node that is not the root moves it up exactly one level. */
  lemma {:induction false} RotateAtLiftsNode(t: Tree, x: Ref)
    requires Unique(t) && x in Ids(t) && x != t.id
    ensures x in Ids(RotateAt(t, x)) && Depth(RotateAt(t, x), x) == Depth(t, x) - 1
  {
    var Node(l, p, r) := t;
    if l.Node? && l.id == x {
    } else if r.Node? && r.id == x {
    } else if x in Ids(l) {
      RotateAtLiftsNode(l, x);
      RotateAtAbsent(r, x);
    } else {
      RotateAtLiftsNode(r, x);
      RotateAtAbsent(l, x);
    }
  }

  // ---- Rotation on the arena ----

  /**
   * m' is m after `rotate` on x, the left child of p: x gets p as its right
   * child and p's former parent g as its parent, p gets x's former right
   * child xr as its left child and x as its parent, xr gets p as its parent,
   * g's slot that held p holds x, and no other record changes.
   */
  ghost predicate LeftRotation(m: Store, m': Store, x: Ref, p: Ref) {
    x in m && p in m && m'.Keys == m.Keys &&
    var g, xr := m[p].parent, m[x].right;
    (xr.Some? ==> xr.value in m) && (g.Some? ==> g.value in m) &&
    m'[x] == m[x].(right := Some(p), parent := g) &&
    m'[p] == m[p].(left := xr, parent := Some(x)) &&
    (xr.Some? ==> m'[xr.value] == m[xr.value].(parent := Some(p))) &&
    (g.Some? ==> m'[g.value] == ReplaceChild(m[g.value], p, x)) &&
    forall q :: q in m && q != x && q != p && Some(q) != xr && Some(q) != g ==> m'[q] == m[q]
  }

  /** The mirror image of LeftRotation, for x that is not p's left child. */
  ghost predicate RightRotation(m: Store, m': Store, x: Ref, p: Ref) {
    x in m && p in m && m'.Keys == m.Keys &&
    var g, xl := m[p].parent, m[x].left;
    (xl.Some? ==> xl.value in m) && (g.Some? ==> g.value in m) &&
    m'[x] == m[x].(left := Some(p), parent := g) &&
    m'[p] == m[p].(right := xl, parent := Some(x)) &&
    (xl.Some? ==> m'[xl.value] == m[xl.value].(parent := Some(p))) &&
    (g.Some? ==> m'[g.value] == ReplaceChild(m[g.value], p, x)) &&
    forall q :: q in m && q != x && q != p && Some(q) != xl && Some(q) != g ==> m'[q] == m[q]
  }

  /** When x is p's left child and the nodes around it are distinct, Rotated is a LeftRotation. */
  lemma RotatedLeftChild(m: Store, x: Ref, p: Ref)
    requires Closed(m) && x in m && p in m && x != p
    requires m[x].parent == Some(p) && m[p].left == Some(x)
    requires m[x].right != Some(x) && m[x].right != Some(p)
    requires m[p].parent != Some(x) && m[p].parent != Some(p)
    requires m[p].parent.Some? ==> m[x].right != m[p].parent
    ensures LeftRotation(m, Rotated(m, x), x, p)
  {
    assert LinksWithin(m[x], m) && LinksWithin(m[p], m);
  }

  /** When x is p's child but not its left one, Rotated is a RightRotation. */
  lemma RotatedRightChild(m: Store, x: Ref, p: Ref)
    requires Closed(m) && x in m && p in m && x != p
    requires m[x].parent == Some(p) && m[p].left != Some(x)
    requires m[x].left != Some(x) && m[x].left != Some(p)
    requires m[p].parent != Some(x) && m[p].parent != Some(p)
    requires m[p].parent.Some? ==> m[x].left != m[p].parent
    ensures RightRotation(m, Rotated(m, x), x, p)
  {
    assert LinksWithin(m[x], m) && LinksWithin(m[p], m);
  }

  /**
   * Rotating a node x strictly inside t (t hanging below g) rewrites the
   * arena so that it holds the rotated shape, touches no record outside t
   * except g's, and changes g's record only when x was a child of t's root,
   * in which case g's slot that held t's root now holds x.
   */
  lemma {:induction false} RotatedHolds(m: Store, t: Tree, g: Option<Ref>, x: Ref)
    requires Closed(m) && Holds(m, t, g) && Unique(t)
    requires g.Some? ==> g.value !in Ids(t)
    requires x in Ids(t) && RootOf(t) != Some(x)
    ensures x in m && (g.Some? ==> g.value in m)
    ensures Holds(Rotated(m, x), RotateAt(t, x), g)
    ensures forall q :: q in m && q !in Ids(t) && Some(q) != g ==> Rotated(m, x)[q] == m[q]
    ensures g.Some? ==> (Rotated(m, x)[g.value] ==
      if ChildOfRoot(t, x) then ReplaceChild(m[g.value], t.id, x) else m[g.value])
    decreases t, 1
  {
    HoldsInArena(m, t, g);
    var Node(l, p, r) := t;
    if l.Node? && l.id == x {
      LeftChildLinks(m, t, g);
      RotatedLeftChild(m, x, p);
      LeftRotationHolds(m, Rotated(m, x), t, g);
      LeftRotationFrame(m, Rotated(m, x), t, g);
    } else if r.Node? && r.id == x {
      RightChildLinks(m, t, g);
      RotatedRightChild(m, x, p);
      RightRotationHolds(m, Rotated(m, x), t, g);
      RightRotationFrame(m, Rotated(m, x), t, g);
    } else {
      RotatedHoldsBelow(m, t, g, x);
    }
  }

  /** RotatedHolds where x lies below a child of t's root. */
  lemma {:induction false} RotatedHoldsBelow(m: Store, t: Tree, g: Option<Ref>, x: Ref)
    requires Closed(m) && Holds(m, t, g) && Unique(t)
    requires g.Some? ==> g.value !in Ids(t)
    requires x in Ids(t) && RootOf(t) != Some(x) && !ChildOfRoot(t, x)
    ensures x in m && (g.Some? ==> g.value in m)
    ensures Holds(Rotated(m, x), RotateAt(t, x), g)
    ensures forall q :: q in m && q !in Ids(t) && Some(q) != g ==> Rotated(m, x)[q] == m[q]
    ensures g.Some? ==> Rotated(m, x)[g.value] == m[g.value]
    decreases t, 0
  {
    HoldsInArena(m, t, g);
    assert LinksWithin(m[t.id], m);
    var Node(l, p, r) := t;
    var m' := Rotated(m, x);
    if x in Ids(l) {
      RotatedHolds(m, l, Some(p), x);
      RotateAtAbsent(r, x);
      HoldsFrame(m, m', r, Some(p));
    } else {
      RotatedHolds(m, r, Some(p), x);
      RotateAtAbsent(l, x);
      HoldsFrame(m, m', l, Some(p));
    }
  }

  /** The links around a left child x of the root p of a tree hanging below g. */
  lemma LeftChildLinks(m: Store, t: Tree, g: Option<Ref>)
    requires Closed(m) && Holds(m, t, g) && Unique(t) && Ids(t) <= m.Keys
    requires g.Some? ==> g.value !in Ids(t)
    requires t.Node? && t.left.Node?
    ensures var x, p, xr := t.left.id, t.id, RootOf(t.left.right);
      x in m && p in m && x != p && (g.Some? ==> g.value in m) &&
      m[x].right == xr && m[x].parent == Some(p) && m[p].left == Some(x) && m[p].parent == g &&
      (xr.Some? ==> xr.value != x && xr.value != p) &&
      (g.Some? ==> g.value != x && g.value != p && xr != g)
  {
    assert LinksWithin(m[t.id], m);
    var Node(l, p, c) := t;
    var Node(a, x, b) := l;
    assert x in Ids(l) && Ids(l) <= Ids(t) && Ids(b) <= Ids(l);
  }

  /** The links around a right child x of the root p of a tree hanging below g. */
  lemma RightChildLinks(m: Store, t: Tree, g: Option<Ref>)
    requires Closed(m) && Holds(m, t, g) && Unique(t) && Ids(t) <= m.Keys
    requires g.Some? ==> g.value !in Ids(t)
    requires t.Node? && t.right.Node?
    ensures var x, p, xl := t.right.id, t.id, RootOf(t.right.left);
      x in m && p in m && x != p && (g.Some? ==> g.value in m) &&
      m[x].left == xl && m[x].parent == Some(p) && m[p].left != Some(x) && m[p].parent == g &&
      (xl.Some? ==> xl.value != x && xl.value != p) &&
      (g.Some? ==> g.value != x && g.value != p && xl != g)
  {
    assert LinksWithin(m[t.id], m);
    var Node(a, p, r) := t;
    var Node(b, x, c) := r;
    assert x in Ids(r) && Ids(r) <= Ids(t) && Ids(b) <= Ids(r);
    if a.Node? { assert a.id != x; }
  }

  /**
   * After a LeftRotation of x, the left child of t's root p, the arena holds
   * the rotated shape: (a x b) p c becomes a x (b p c).
   */
  lemma LeftRotationHolds(m: Store, m': Store, t: Tree, g: Option<Ref>)
    requires Holds(m, t, g) && Unique(t) && t.Node? && t.left.Node?
    requires g.Some? ==> g.value !in Ids(t)
    requires Ids(t) <= m.Keys
    requires LeftRotation(m, m', t.left.id, t.id)
    ensures Holds(m', RotateAt(t, t.left.id), g)
  {
    var Node(l, p, c) := t;
    var Node(a, x, b) := l;
    LeftRotationSubtrees(m, m', t, g);
    assert RotateAt(t, x) == Node(a, x, Node(b, p, c));
  }

  /** A LeftRotation at a child of t's root changes no record outside t but g's. */
  lemma LeftRotationFrame(m: Store, m': Store, t: Tree, g: Option<Ref>)
    requires Holds(m, t, g) && Unique(t) && t.Node? && t.left.Node?
    requires LeftRotation(m, m', t.left.id, t.id)
    ensures forall q :: q in m && q !in Ids(t) && Some(q) != g ==> m'[q] == m[q]
    ensures g.Some? ==> g.value in m && m'[g.value] == ReplaceChild(m[g.value], t.id, t.left.id)
  {
    assert Ids(t.left) <= Ids(t);
  }

  /** The three subtrees a, b and c keep holding after a LeftRotation, b now below p. */
  lemma LeftRotationSubtrees(m: Store, m': Store, t: Tree, g: Option<Ref>)
    requires Holds(m, t, g) && Unique(t) && t.Node? && t.left.Node?
    requires g.Some? ==> g.value !in Ids(t)
    requires Ids(t) <= m.Keys
    requires LeftRotation(m, m', t.left.id, t.id)
    ensures Holds(m', t.left.left, Some(t.left.id))
    ensures Holds(m', t.left.right, Some(t.id))
    ensures Holds(m', t.right, Some(t.id))
  {
    var Node(l, p, c) := t;
    var Node(a, x, b) := l;
    assert Ids(b) <= Ids(t);
    HoldsFrame(m, m', a, Some(x));
    if b.Node? {
      HoldsReparent(m, m', b, Some(x), Some(p));
    }
    HoldsFrame(m, m', c, Some(p));
  }

  /** The mirror image of LeftRotationHolds: a p (b x c) becomes (a p b) x c. */
  lemma RightRotationHolds(m: Store, m': Store, t: Tree, g: Option<Ref>)
    requires Holds(m, t, g) && Unique(t) && t.Node? && t.right.Node?
    requires g.Some? ==> g.value !in Ids(t)
    requires Ids(t) <= m.Keys
    requires RightRotation(m, m', t.right.id, t.id)
    ensures Holds(m', RotateAt(t, t.right.id), g)
  {
    var Node(a, p, r) := t;
    var Node(b, x, c) := r;
    RightRotationSubtrees(m, m', t, g);
    assert RotateAt(t, x) == Node(Node(a, p, b), x, c) by {
      if a.Node? { assert a.id != x; }
    }
  }

  /** A RightRotation at a child of t's root changes no record outside t but g's. */
  lemma RightRotationFrame(m: Store, m': Store, t: Tree, g: Option<Ref>)
    requires Holds(m, t, g) && Unique(t) && t.Node? && t.right.Node?
    requires RightRotation(m, m', t.right.id, t.id)
    ensures forall q :: q in m && q !in Ids(t) && Some(q) != g ==> m'[q] == m[q]
    ensures g.Some? ==> g.value in m && m'[g.value] == ReplaceChild(m[g.value], t.id, t.right.id)
  {
    assert Ids(t.right) <= Ids(t);
  }

  /** The three subtrees a, b and c keep holding after a RightRotation, b now below p. */
  lemma RightRotationSubtrees(m: Store, m': Store, t: Tree, g: Option<Ref>)
    requires Holds(m, t, g) && Unique(t) && t.Node? && t.right.Node?
    requires g.Some? ==> g.value !in Ids(t)
    requires Ids(t) <= m.Keys
    requires RightRotation(m, m', t.right.id, t.id)
    ensures Holds(m', t.right.right, Some(t.right.id))
    ensures Holds(m', t.right.left, Some(t.id))
    ensures Holds(m', t.left, Some(t.id))
  {
    var Node(a, p, r) := t;
    var Node(b, x, c) := r;
    assert Ids(b) <= Ids(t);
    HoldsFrame(m, m', c, Some(x));
    if b.Node? {
      HoldsReparent(m, m', b, Some(x), Some(p));
    }
    HoldsFrame(m, m', a, Some(p));
  }

  /**
   * Rotating any node of a consistent tree leaves a consistent tree of the
   * same nodes, in the same in-order sequence: the arena holds the rotated
   * shape, with every parent/child link in both directions.
   */
  lemma {:induction false} RotatePreservesTree(m: Store, t: Tree, x: Ref)
    requires Closed(m) && Holds(m, t, None) && Unique(t) && x in Ids(t)
    ensures x in m
    ensures Holds(Rotated(m, x), RotateAt(t, x), None)
    ensures Unique(RotateAt(t, x)) && Ids(RotateAt(t, x)) == Ids(t)
    ensures Inorder(RotateAt(t, x)) == Inorder(t)
  {
    HoldsInArena(m, t, None);
    RotateAtKeepsUnique(t, x);
    RotateAtKeepsInorder(t, x);
    if x == t.id {
      RotateAtAbsent(t.left, x);
      RotateAtAbsent(t.right, x);
    } else {
      RotatedHolds(m, t, None, x);
    }
  }

  /**
   * `Holds` gives the linkage invariant inside the tree: each node's children
   * have it as their parent, and its parent is the tree's parent or a node
   * of the tree.
   */
  lemma {:induction false} HoldsLinks(m: Store, t: Tree, p: Option<Ref>)
    requires Holds(m, t, p)
    ensures forall i :: i in Ids(t) ==>
      i in m && (m[i].parent == p || (m[i].parent.Some? && m[i].parent.value in Ids(t)))
    ensures forall i :: i in Ids(t) ==>
      i in m &&
      (m[i].left.Some? ==> m[i].left.value in m && m[m[i].left.value].parent == Some(i)) &&
      (m[i].right.Some? ==> m[i].right.value in m && m[m[i].right.value].parent == Some(i))
  {
    match t
    case Nil =>
    case Node(l, i, r) =>
      HoldsLinks(m, l, Some(i));
      HoldsLinks(m, r, Some(i));
  }

  /**
   * Rotating a node of a consistent tree keeps the parent/child linkage
   * invariant of the whole arena, the form of it that the setters keep.
   */
  lemma RotateKeepsLinked(m: Store, t: Tree, x: Ref)
    requires Closed(m) && Linked(m) && Holds(m, t, None) && Unique(t) && x in Ids(t)
    ensures x in m && Linked(Rotated(m, x))
  {
    HoldsInArena(m, t, None);
    if x == t.id {
      assert Rotated(m, x) == m;
    } else {
      var m', t' := Rotated(m, x), RotateAt(t, x);
      RotatedHolds(m, t, None, x);
      HoldsLinks(m, t, None);
      HoldsLinks(m', t', None);
      forall n | n in m'
        ensures m'[n].left.Some? ==> m'[n].left.value in m' && m'[m'[n].left.value].parent == Some(n)
        ensures m'[n].right.Some? ==> m'[n].right.value in m' && m'[m'[n].right.value].parent == Some(n)
      {
        if n !in Ids(t) {
          assert m'[n] == m[n];
          if m[n].left.Some? {
            assert m[n].left.value !in Ids(t);
          }
          if m[n].right.Some? {
            assert m[n].right.value !in Ids(t);
          }
        }
      }
    }
  }

  // ---- Following parent links ----

  /** The node reached from n by following k parent links, if there is one. */
  function Up(m: Store, n: Ref, k: nat): Option<Ref> {
    if k == 0 then Some(n)
    else match Up(m, n, k - 1)
      case None => None
      case Some(a) => if a in m then m[a].parent else None
  }

  /** Following k parent links from n ends at a node without a parent. */
  predicate ReachesRoot(m: Store, n: Ref, k: nat) {
    Up(m, n, k).Some? && Up(m, n, k).value in m && m[Up(m, n, k).value].parent.None?
  }

  /** In a tree hanging below g, every node's parent chain climbs to t's root. */
  lemma {:induction false} UpToTreeRoot(m: Store, t: Tree, g: Option<Ref>, n: Ref)
    requires Holds(m, t, g) && n in Ids(t)
    ensures Up(m, n, Depth(t, n)) == Some(t.id)
  {
    var Node(l, i, r) := t;
    if n == i {
    } else if n in Ids(l) {
      UpToTreeRoot(m, l, Some(i), n);
    } else {
      UpToTreeRoot(m, r, Some(i), n);
    }
  }

  lemma {:induction false} UpStaysNone(m: Store, n: Ref, i: nat, j: nat)
    requires i <= j && Up(m, n, i).None?
    ensures Up(m, n, j).None?
    decreases j - i
  {
    if i < j {
      UpStaysNone(m, n, i + 1, j);
    }
  }

  /** A parent chain ends at no more than one node. */
  lemma {:induction false} ChainEndUnique(m: Store, n: Ref, i: nat, j: nat)
    requires ReachesRoot(m, n, i) && ReachesRoot(m, n, j)
    ensures i == j
  {
    if i < j {
      UpStaysNone(m, n, i + 1, j);
    } else if j < i {
      UpStaysNone(m, n, j + 1, i);
    }
  }

  /**
   * Every node of a consistent tree whose root has no parent climbs to that
   * root, and to no other parentless node.
   */
  lemma {:induction false} TreeRootIsChainEnd(m: Store, t: Tree, n: Ref, k: nat)
    requires Holds(m, t, None) && n in Ids(t)
    ensures ReachesRoot(m, n, Depth(t, n))
    ensures ReachesRoot(m, n, k) ==> Up(m, n, k) == Some(t.id)
  {
    UpToTreeRoot(m, t, None, n);
    if ReachesRoot(m, n, k) {
      ChainEndUnique(m, n, k, Depth(t, n));
    }
  }
}
