/**
 * The node records of a binary tree and the pointer operations on them.
 *
 * Every node object of the program is a record in an arena: a map from a
 * handle (`Ref`) to the node's `left`, `right` and `parent` links and, for a
 * search-tree node, its key.  A `null` link is `None`.  The functions below
 * take the arena before an operation and give the arena after it, so they
 * are the specifications of the in-place methods of `TreeNode.Forest`.
 */
module Links {

  datatype Option<+T> = None | Some(value: T)

  datatype Result<+T> = Ok(value: T) | Err(error: Error)

  /** The two errors the node operations throw. */
  datatype Error =
    | NotAChild    // getSide: the reference is in neither child slot
    | InvalidSide  // setSide: the side token is neither LEFT nor RIGHT

  /** The side tokens, with the same spelling as the program's constants. */
  const LEFT: string := "left"
  const RIGHT: string := "right"

  /** The identity of a node object. */
  type Ref = nat

  /**
   * One node object.  `key` is None for a plain binary tree node and
   * Some(k) for a binary search tree node with key k.
   */
  datatype NodeRec = NodeRec(left: Option<Ref>, right: Option<Ref>, parent: Option<Ref>, key: Option<int>)

  type Store = map<Ref, NodeRec>

  /** Every link of every node names a node of the arena. */
  ghost predicate Closed(m: Store) {
    forall n :: n in m ==> LinksWithin(m[n], m)
  }

  /** The links of one record name nodes of the arena. */
  ghost predicate LinksWithin(r: NodeRec, m: Store) {
    (r.left.Some? ==> r.left.value in m) &&
    (r.right.Some? ==> r.right.value in m) &&
    (r.parent.Some? ==> r.parent.value in m)
  }

  /** Overwriting one record with links inside the arena keeps it closed. */
  lemma UpdateKeepsClosed(m: Store, q: Ref, r: NodeRec)
    requires Closed(m) && q in m && LinksWithin(r, m)
    ensures Closed(m[q := r])
  {
    var m' := m[q := r];
    forall n | n in m' ensures LinksWithin(m'[n], m') {
      assert LinksWithin(m'[n], m);
    }
  }

  /** Adding a record whose links name nodes of the arena keeps it closed. */
  lemma AddKeepsClosed(m: Store, q: Ref, r: NodeRec)
    requires Closed(m) && q !in m && LinksWithin(r, m)
    ensures Closed(m[q := r])
  {
    var m' := m[q := r];
    forall n | n in m' ensures LinksWithin(m'[n], m') {
      assert LinksWithin(m'[n], m);
    }
  }

  /**
   * The parent/child linkage invariant: whoever sits in a child slot of a
   * node has that node as its parent.
   */
  ghost predicate Linked(m: Store) {
    forall n :: n in m ==>
      (m[n].left.Some? ==> m[n].left.value in m && m[m[n].left.value].parent == Some(n)) &&
      (m[n].right.Some? ==> m[n].right.value in m && m[m[n].right.value].parent == Some(n))
  }

  /** `n.setLeft(c)`: the left slot becomes c, and c's parent becomes n. */
  function WithLeft(m: Store, n: Ref, c: Option<Ref>): (m': Store)
    requires n in m && (c.Some? ==> c.value in m)
    ensures m'.Keys == m.Keys && (Closed(m) ==> Closed(m'))
    ensures m'[n].left == c && m'[n].right == m[n].right && m'[n].key == m[n].key
    ensures m'[n].parent == if c == Some(n) then Some(n) else m[n].parent
    ensures c.Some? && c.value != n ==> m'[c.value] == m[c.value].(parent := Some(n))
    ensures forall q :: q in m && q != n && Some(q) != c ==> m'[q] == m[q]
  {
    var m1 := m[n := m[n].(left := c)];
    ClosedAfterSet(m, n, m[n].(left := c), c);
    if c.Some? then m1[c.value := m1[c.value].(parent := Some(n))] else m1
  }

  /** `n.setRight(c)`: the right slot becomes c, and c's parent becomes n. */
  function WithRight(m: Store, n: Ref, c: Option<Ref>): (m': Store)
    requires n in m && (c.Some? ==> c.value in m)
    ensures m'.Keys == m.Keys && (Closed(m) ==> Closed(m'))
    ensures m'[n].right == c && m'[n].left == m[n].left && m'[n].key == m[n].key
    ensures m'[n].parent == if c == Some(n) then Some(n) else m[n].parent
    ensures c.Some? && c.value != n ==> m'[c.value] == m[c.value].(parent := Some(n))
    ensures forall q :: q in m && q != n && Some(q) != c ==> m'[q] == m[q]
  {
    var m1 := m[n := m[n].(right := c)];
    ClosedAfterSet(m, n, m[n].(right := c), c);
    if c.Some? then m1[c.value := m1[c.value].(parent := Some(n))] else m1
  }

  /** The two record writes of a setter keep a closed arena closed. */
  lemma ClosedAfterSet(m: Store, n: Ref, r: NodeRec, c: Option<Ref>)
    requires n in m && (c.Some? ==> c.value in m)
    requires r.parent == m[n].parent && (r.left == m[n].left || r.left == c) && (r.right == m[n].right || r.right == c)
    ensures Closed(m) ==> Closed(m[n := r])
    ensures Closed(m) && c.Some? ==>
      Closed(m[n := r][c.value := m[n := r][c.value].(parent := Some(n))])
  {
    if Closed(m) {
      assert LinksWithin(m[n], m);
      UpdateKeepsClosed(m, n, r);
      if c.Some? {
        var m1 := m[n := r];
        UpdateKeepsClosed(m1, c.value, m1[c.value].(parent := Some(n)));
      }
    }
  }

  /**
   * The grandparent step of `rotate`: the slot that holds `was` (the left one
   * if it literally holds it, the right one otherwise) is given to `now`.
   */
  function ReplaceChild(r: NodeRec, was: Ref, now: Ref): (r': NodeRec)
    ensures r'.parent == r.parent && r'.key == r.key
    ensures r.left == Some(was) ==> r'.left == Some(now) && r'.right == r.right
    ensures r.left != Some(was) ==> r'.left == r.left && r'.right == Some(now)
  {
    if r.left == Some(was) then r.(left := Some(now)) else r.(right := Some(now))
  }

  /**
   * `x.rotate()`: x takes the place of its parent p, which becomes x's right
   * child if x was p's left child and x's left child otherwise; the child of
   * x on that side moves over to p, and the grandparent's slot that held p
   * now holds x.  Nothing happens when x has no parent.
   */
  function Rotated(m: Store, x: Ref): (m': Store)
    requires Closed(m) && x in m
    ensures m'.Keys == m.Keys && Closed(m')
    ensures forall q :: q in m ==> m'[q].key == m[q].key
    ensures m[x].parent.None? ==> m' == m
  {
    match m[x].parent
    case None => m
    case Some(p) =>
      var g := m[p].parent;
      var m3 := SwapWithParent(m, x, p);
      match g
      case None => m3
      case Some(gp) =>
        UpdateKeepsClosed(m3, gp, ReplaceChild(m3[gp], p, x));
        m3[gp := ReplaceChild(m3[gp], p, x)]
  }

  /**
   * The part of `rotate` below the grandparent: p's slot that held x gets
   * x's inner child, x gets p in that slot, p's parent becomes x and x's
   * parent becomes p's former parent.
   */
  function SwapWithParent(m: Store, x: Ref, p: Ref): (m': Store)
    requires Closed(m) && x in m && p in m
    ensures m'.Keys == m.Keys && Closed(m')
    ensures forall q :: q in m ==> m'[q].key == m[q].key
  {
    var g := m[p].parent;
    var m1 :=
      if m[p].left == Some(x) then
        (var m0 := WithLeft(m, p, m[x].right);
         UpdateKeepsClosed(m0, x, m0[x].(right := Some(p)));
         m0[x := m0[x].(right := Some(p))])
      else
        (var m0 := WithRight(m, p, m[x].left);
         UpdateKeepsClosed(m0, x, m0[x].(left := Some(p)));
         m0[x := m0[x].(left := Some(p))]);
    UpdateKeepsClosed(m1, p, m1[p].(parent := Some(x)));
    var m2 := m1[p := m1[p].(parent := Some(x))];
    UpdateKeepsClosed(m2, x, m2[x].(parent := g));
    m2[x := m2[x].(parent := g)]
  }

  /** `n.isLeaf()`: a node is a leaf exactly when it lists no children. */
  predicate IsLeaf(m: Store, n: Ref)
    requires n in m
    ensures IsLeaf(m, n) <==> ChildList(m[n]) == []
  {
    m[n].left.None? && m[n].right.None?
  }

  /**
   * The children of a node as `getChildren` lists them: the present ones,
   * left before right.
   */
  function ChildList(r: NodeRec): (cs: seq<Ref>)
    ensures |cs| == (if r.left.Some? then 1 else 0) + (if r.right.Some? then 1 else 0)
    ensures forall c :: c in cs <==> Some(c) == r.left || Some(c) == r.right
    ensures r.left.Some? ==> cs[0] == r.left.value
    ensures r.right.Some? ==> cs[|cs| - 1] == r.right.value
  {
    (if r.left.Some? then [r.left.value] else []) + (if r.right.Some? then [r.right.value] else [])
  }

  /**
   * `n.getSide(c)`: LEFT when c is in the left slot (checked first), RIGHT
   * when it is in the right slot, and an error otherwise.  A null c matches
   * an empty slot.
   */
  function GetSide(m: Store, n: Ref, c: Option<Ref>): (r: Result<string>)
    requires n in m
    ensures r == Ok(LEFT) <==> c == m[n].left
    ensures r == Ok(RIGHT) <==> c != m[n].left && c == m[n].right
    ensures r == Err(NotAChild) <==> c != m[n].left && c != m[n].right
    ensures r.Ok? || r == Err(NotAChild)
  {
    if c == m[n].left then Ok(LEFT)
    else if c == m[n].right then Ok(RIGHT)
    else Err(NotAChild)
  }

  /**
   * `n.setSide(c, side)` as a function of the arena: the setter that the
   * side token names, or InvalidSide with the arena untouched.
   */
  function SetSide(m: Store, n: Ref, c: Option<Ref>, side: string): (r: Result<Store>)
    requires n in m && (c.Some? ==> c.value in m)
    ensures r.Ok? <==> side == LEFT || side == RIGHT
    ensures side == LEFT ==> r == Ok(WithLeft(m, n, c))
    ensures side == RIGHT ==> r == Ok(WithRight(m, n, c))
    ensures r.Err? ==> r.error == InvalidSide
  {
    if side == LEFT then Ok(WithLeft(m, n, c))
    else if side == RIGHT then Ok(WithRight(m, n, c))
    else Err(InvalidSide)
  }

  /**
   * `n.getSibling()`: the parent's other slot when n is the parent's left
   * or right child, and null when n has no parent or is in neither slot.
   */
  function GetSibling(m: Store, n: Ref): (r: Option<Ref>)
    requires Closed(m) && n in m
    ensures m[n].parent.None? ==> r.None?
    ensures r.Some? ==> (m[n].parent.Some? &&
      var p := m[m[n].parent.value];
       (p.left == Some(n) && r == p.right) || (p.left != Some(n) && p.right == Some(n) && r == p.left))
    ensures r.None? && m[n].parent.Some? ==>
      (var p := m[m[n].parent.value];
       (p.left == Some(n) && p.right.None?) || (p.left != Some(n) && (p.right != Some(n) || p.left.None?)))
  {
    match m[n].parent
    case None => None
    case Some(p) =>
      if m[p].left == Some(n) then m[p].right
      else if m[p].right == Some(n) then m[p].left
      else None
  }

  // ---- Lemmas about the setters ----

  /**
   * After setting a child on one side, getSide finds it there: always for
   * the left side, and for the right side unless the same reference also
   * sits in the left slot (which getSide checks first).
   */
  lemma {:induction false} GetSideAfterSetSide(m: Store, n: Ref, c: Option<Ref>, side: string)
    requires n in m && (c.Some? ==> c.value in m)
    requires SetSide(m, n, c, side).Ok?
    requires side == RIGHT ==> c != m[n].left
    ensures GetSide(SetSide(m, n, c, side).value, n, c) == Ok(side)
  {
    if side == LEFT {
      assert SetSide(m, n, c, side).value[n].left == c;
    } else {
      var m' := SetSide(m, n, c, side).value;
      assert m'[n].right == c && m'[n].left == m[n].left;
    }
  }

  /**
   * In a linked arena, putting a child back on the side where getSide found
   * it changes nothing at all.
   */
  lemma {:induction false} SetSideWhereFoundIsIdentity(m: Store, n: Ref, c: Option<Ref>)
    requires Linked(m) && n in m && (c.Some? ==> c.value in m)
    requires GetSide(m, n, c).Ok?
    ensures SetSide(m, n, c, GetSide(m, n, c).value) == Ok(m)
  {
    var side := GetSide(m, n, c).value;
    var m' := SetSide(m, n, c, side).value;
    forall q | q in m ensures m'[q] == m[q] {
      if c.Some? && q == c.value {
        assert m[q].parent == Some(n);
      }
    }
    assert m' == m;
  }

  /**
   * setLeft keeps the linkage invariant when the new child is detached, that
   * is when its parent is null or already this node.  (The previous left
   * child keeps its stale parent link; the invariant does not look at it.)
   */
  lemma {:induction false} WithLeftKeepsLinked(m: Store, n: Ref, c: Option<Ref>)
    requires Linked(m) && n in m && (c.Some? ==> c.value in m)
    requires c.Some? ==> m[c.value].parent.None? || m[c.value].parent == Some(n)
    ensures Linked(WithLeft(m, n, c))
  {
    var m' := WithLeft(m, n, c);
    forall q | q in m'
      ensures m'[q].left.Some? ==> m'[q].left.value in m' && m'[m'[q].left.value].parent == Some(q)
      ensures m'[q].right.Some? ==> m'[q].right.value in m' && m'[m'[q].right.value].parent == Some(q)
    {
      if q != n {
        if m'[q].left.Some? { assert m'[q].left == m[q].left; ChildOfOtherNode(m, q, m[q].left.value, n, c); }
        if m'[q].right.Some? { assert m'[q].right == m[q].right; ChildOfOtherNode(m, q, m[q].right.value, n, c); }
      } else if m'[q].right.Some? {
        var r := m[n].right.value;
        assert m[r].parent == Some(n);
      }
    }
  }

  /** setRight keeps the linkage invariant under the same condition. */
  lemma {:induction false} WithRightKeepsLinked(m: Store, n: Ref, c: Option<Ref>)
    requires Linked(m) && n in m && (c.Some? ==> c.value in m)
    requires c.Some? ==> m[c.value].parent.None? || m[c.value].parent == Some(n)
    ensures Linked(WithRight(m, n, c))
  {
    var m' := WithRight(m, n, c);
    forall q | q in m'
      ensures m'[q].left.Some? ==> m'[q].left.value in m' && m'[m'[q].left.value].parent == Some(q)
      ensures m'[q].right.Some? ==> m'[q].right.value in m' && m'[m'[q].right.value].parent == Some(q)
    {
      if q != n {
        if m'[q].left.Some? { assert m'[q].left == m[q].left; ChildOfOtherNode(m, q, m[q].left.value, n, c); }
        if m'[q].right.Some? { assert m'[q].right == m[q].right; ChildOfOtherNode(m, q, m[q].right.value, n, c); }
      } else if m'[q].left.Some? {
        var l := m[n].left.value;
        assert m[l].parent == Some(n);
      }
    }
  }

  /**
   * A child of some node q other than n is neither n (whose parent may be
   * rewritten) nor a detached c, so its record keeps its parent link.
   */
  lemma ChildOfOtherNode(m: Store, q: Ref, k: Ref, n: Ref, c: Option<Ref>)
    requires Linked(m) && q in m && q != n && k in m && m[k].parent == Some(q)
    requires c.Some? ==> c.value in m && (m[c.value].parent.None? || m[c.value].parent == Some(n))
    ensures c != Some(k)
  {
  }

  /**
   * setLeft on a child that is still attached elsewhere breaks the linkage
   * invariant: the old parent keeps the child in its slot while the child
   * now points at the new parent.
   */
  lemma {:induction false} WithLeftOfAttachedChildUnlinks(m: Store, n: Ref, c: Ref, q: Ref)
    requires n in m && c in m && q in m && q != n && c != n && c != q
    requires m[q].left == Some(c)
    ensures !Linked(WithLeft(m, n, Some(c)))
  {
    var m' := WithLeft(m, n, Some(c));
    assert m'[q].left == Some(c) && m'[c].parent == Some(n);
  }

  /** Siblings are mutual in a linked arena. */
  lemma {:induction false} SiblingIsMutual(m: Store, a: Ref, b: Ref)
    requires Closed(m) && Linked(m) && a in m
    requires GetSibling(m, a) == Some(b) && a != b
    ensures b in m && GetSibling(m, b) == Some(a)
  {
    var p := m[a].parent.value;
    if m[p].left == Some(a) {
      assert m[b].parent == Some(p);
    } else {
      assert m[p].right == Some(a) && m[p].left == Some(b);
      assert m[b].parent == Some(p);
    }
  }
}
