/**
 * Binary search trees: keys, the search-tree ordering, and the descent that
 * `insert` and `find` share.
 *
 * Both operations start at the root and compare the key with each node's
 * key: greater goes right, smaller goes left, and equal stops there.  A node
 * without a key (a plain binary tree node in the tree) compares neither
 * greater nor smaller nor equal, so the descent stops there too.  `Locate`
 * is where the descent ends; `InsertTree` and `Attached` are what `insert`
 * makes of the shape and of the arena.
 */
module Search {
  import opened Links
  import opened Shape

  /** The keys of the keyed nodes of t. */
  function Keys(m: Store, t: Tree): set<int> {
    match t
    case Nil => {}
    case Node(l, i, r) => Keys(m, l) + KeyOf(m, i) + Keys(m, r)
  }

  /** The key of node i, as a set: empty when i has none. */
  function KeyOf(m: Store, i: Ref): set<int> {
    if i in m && m[i].key.Some? then {m[i].key.value} else {}
  }

  /**
   * The binary search tree ordering: every node has a key, the keys in its
   * left subtree are strictly smaller and those in its right subtree
   * strictly larger.
   */
  predicate SearchTree(m: Store, t: Tree) {
    match t
    case Nil => true
    case Node(l, i, r) =>
      i in m && m[i].key.Some? &&
      (forall k :: k in Keys(m, l) ==> k < m[i].key.value) &&
      (forall k :: k in Keys(m, r) ==> k > m[i].key.value) &&
      SearchTree(m, l) && SearchTree(m, r)
  }

  /** Every node of t has a key. */
  predicate Keyed(m: Store, t: Tree) {
    forall i :: i in Ids(t) ==> i in m && m[i].key.Some?
  }

  /** The keys of the keyed nodes among ns, in the order of ns. */
  function KeySeq(m: Store, ns: seq<Ref>): seq<int> {
    if ns == [] then []
    else (if ns[0] in m && m[ns[0]].key.Some? then [m[ns[0]].key.value] else []) + KeySeq(m, ns[1..])
  }

  /** The keys of t in in-order. */
  function InorderKeys(m: Store, t: Tree): seq<int> {
    KeySeq(m, Inorder(t))
  }

  predicate Increasing(s: seq<int>) {
    forall a, b :: 0 <= a < b < |s| ==> s[a] < s[b]
  }

  // ---- Keys in in-order ----

  lemma {:induction false} KeySeqAppend(m: Store, a: seq<Ref>, b: seq<Ref>)
    ensures KeySeq(m, a + b) == KeySeq(m, a) + KeySeq(m, b)
  {
    if a == [] {
      assert a + b == b;
    } else {
      KeySeqAppend(m, a[1..], b);
      assert (a + b)[0] == a[0] && (a + b)[1..] == a[1..] + b;
    }
  }

  /** The in-order keys split at the root. */
  lemma InorderKeysNode(m: Store, l: Tree, i: Ref, r: Tree)
    ensures InorderKeys(m, Node(l, i, r)) ==
      InorderKeys(m, l) + (if i in m && m[i].key.Some? then [m[i].key.value] else []) + InorderKeys(m, r)
  {
    KeySeqAppend(m, Inorder(l) + [i], Inorder(r));
    KeySeqAppend(m, Inorder(l), [i]);
  }

  /** The in-order keys are exactly the keys. */
  lemma {:induction false} InorderKeysAreKeys(m: Store, t: Tree)
    ensures forall k :: k in InorderKeys(m, t) <==> k in Keys(m, t)
  {
    match t
    case Nil =>
    case Node(l, i, r) =>
      InorderKeysAreKeys(m, l);
      InorderKeysAreKeys(m, r);
      InorderKeysNode(m, l, i, r);
  }

  /** An increasing sequence with a middle element splits into increasing sides around it. */
  lemma IncreasingSplit(a: seq<int>, k: int, b: seq<int>)
    requires Increasing(a + [k] + b)
    ensures Increasing(a) && Increasing(b) && (forall x :: x in a ==> x < k) && (forall x :: x in b ==> k < x)
  {
    var s := a + [k] + b;
    assert forall x :: 0 <= x < |a| ==> s[x] == a[x];
    assert forall x :: 0 <= x < |b| ==> s[|a| + 1 + x] == b[x];
    assert s[|a|] == k;
  }

  /** Increasing sides around a middle element that lies between them join up. */
  lemma IncreasingJoin(a: seq<int>, k: int, b: seq<int>)
    requires Increasing(a) && Increasing(b) && (forall x :: x in a ==> x < k) && (forall x :: x in b ==> k < x)
    ensures Increasing(a + [k] + b)
  {
    var s := a + [k] + b;
    forall x, y | 0 <= x < y < |s| ensures s[x] < s[y] {
      if y < |a| {
      } else if x < |a| {
        assert a[x] in a;
        if y > |a| { assert s[y] == b[y - |a| - 1] && b[y - |a| - 1] in b; }
      } else if x == |a| {
        assert s[y] == b[y - |a| - 1] && b[y - |a| - 1] in b;
      } else {
        assert s[x] == b[x - |a| - 1] && s[y] == b[y - |a| - 1];
      }
    }
  }

  /**
   * The search-tree ordering is exactly: every node keyed, and the keys in
   * strictly increasing in-order.
   */
  lemma {:induction false} SearchTreeIffSorted(m: Store, t: Tree)
    ensures SearchTree(m, t) <==> Keyed(m, t) && Increasing(InorderKeys(m, t))
  {
    match t
    case Nil =>
    case Node(l, i, r) =>
      SearchTreeIffSorted(m, l);
      SearchTreeIffSorted(m, r);
      InorderKeysNode(m, l, i, r);
      InorderKeysAreKeys(m, l);
      InorderKeysAreKeys(m, r);
      if i in m && m[i].key.Some? {
        var a, k, b := InorderKeys(m, l), m[i].key.value, InorderKeys(m, r);
        if Increasing(a + [k] + b) {
          IncreasingSplit(a, k, b);
        }
        if Increasing(a) && Increasing(b) && (forall x :: x in a ==> x < k) && (forall x :: x in b ==> k < x) {
          IncreasingJoin(a, k, b);
        }
      }
      assert Keyed(m, t) <==> i in m && m[i].key.Some? && Keyed(m, l) && Keyed(m, r);
  }

  /** Only the keys of the records matter to Keys and to the ordering. */
  lemma {:induction false} SameKeys(m: Store, m': Store, t: Tree)
    requires forall i :: i in Ids(t) ==> (i in m <==> i in m') && (i in m ==> m'[i].key == m[i].key)
    ensures Keys(m', t) == Keys(m, t)
    ensures SearchTree(m', t) == SearchTree(m, t)
  {
    match t
    case Nil =>
    case Node(l, i, r) =>
      SameKeys(m, m', l);
      SameKeys(m, m', r);
  }

  /**
   * Rotating the shape keeps its keys and its ordering: the in-order
   * sequence, and so the in-order keys, do not change.
   */
  lemma RotateAtKeepsOrdering(m: Store, t: Tree, x: Ref)
    ensures Keys(m, RotateAt(t, x)) == Keys(m, t)
    ensures SearchTree(m, RotateAt(t, x)) == SearchTree(m, t)
  {
    var t' := RotateAt(t, x);
    RotateAtKeepsInorder(t, x);
    assert InorderKeys(m, t') == InorderKeys(m, t);
    InorderKeysAreKeys(m, t);
    InorderKeysAreKeys(m, t');
    SearchTreeIffSorted(m, t);
    SearchTreeIffSorted(m, t');
  }

  /**
   * `rotate` keeps the keys and the search-tree ordering of the tree the
   * arena holds: it keeps the in-order sequence and every node's key.
   */
  lemma RotatePreservesSearchTree(m: Store, t: Tree, x: Ref)
    requires Closed(m) && Holds(m, t, None) && x in Ids(t)
    ensures x in m
    ensures Keys(Rotated(m, x), RotateAt(t, x)) == Keys(m, t)
    ensures SearchTree(Rotated(m, x), RotateAt(t, x)) == SearchTree(m, t)
  {
    HoldsInArena(m, t, None);
    RotateAtKeepsOrdering(m, t, x);
    SameKeys(m, Rotated(m, x), RotateAt(t, x));
  }

  // ---- The descent ----

  /** Where a descent for a key ends. */
  datatype Spot =
    | Found(node: Ref)      // node has the key
    | FreeLeft(node: Ref)   // the key is smaller than node's and node has no left child
    | FreeRight(node: Ref)  // the key is larger than node's and node has no right child
    | Unkeyed(node: Ref)    // node has no key to compare with

  /** The descent of `insert` and `find` for key k from the root of t. */
  function Locate(m: Store, t: Tree, k: int): (s: Spot)
    requires t.Node?
    ensures s.node in Ids(t)
  {
    var Node(l, i, r) := t;
    if i !in m || m[i].key.None? then Unkeyed(i)
    else if k > m[i].key.value then (if r.Nil? then FreeRight(i) else Locate(m, r, k))
    else if k < m[i].key.value then (if l.Nil? then FreeLeft(i) else Locate(m, l, k))
    else Found(i)
  }

  /** In a tree the arena holds, each spot is what its name says. */
  lemma {:induction false} LocateSpot(m: Store, t: Tree, p: Option<Ref>, k: int)
    requires Holds(m, t, p) && t.Node?
    ensures var s := Locate(m, t, k);
      s.node in m &&
      (s.Found? ==> m[s.node].key == Some(k)) &&
      (s.FreeLeft? ==> m[s.node].left.None? && m[s.node].key.Some? && k < m[s.node].key.value) &&
      (s.FreeRight? ==> m[s.node].right.None? && m[s.node].key.Some? && k > m[s.node].key.value) &&
      (s.Unkeyed? ==> m[s.node].key.None?)
  {
    var Node(l, i, r) := t;
    if i in m && m[i].key.Some? {
      if k > m[i].key.value && r.Node? {
        LocateSpot(m, r, Some(i), k);
      } else if k < m[i].key.value && l.Node? {
        LocateSpot(m, l, Some(i), k);
      }
    }
  }

  /**
   * In a search tree the descent finds the key exactly when the tree has it,
   * and never meets a node without a key.
   */
  lemma {:induction false} LocateFindsKey(m: Store, t: Tree, k: int)
    requires SearchTree(m, t) && t.Node?
    ensures !Locate(m, t, k).Unkeyed?
    ensures Locate(m, t, k).Found? <==> k in Keys(m, t)
    ensures Locate(m, t, k).Found? ==> Locate(m, t, k).node in m && m[Locate(m, t, k).node].key == Some(k)
  {
    var Node(l, i, r) := t;
    var key := m[i].key.value;
    if k > key {
      if r.Node? { LocateFindsKey(m, r, k); }
      assert k !in Keys(m, l);
    } else if k < key {
      if l.Node? { LocateFindsKey(m, l, k); }
      assert k !in Keys(m, r);
    }
  }

  // ---- Insertion ----

  /** The record of a new search-tree node with key k: no links at all. */
  function Leaf(k: int): NodeRec {
    NodeRec(None, None, None, Some(k))
  }

  /**
   * The shape after `insert(k)`: a new node f hangs in the free slot the
   * descent ends at; when it ends at the key or at a node without one, the
   * shape is unchanged.
   */
  function InsertTree(m: Store, t: Tree, k: int, f: Ref): (t': Tree)
    requires t.Node?
    ensures t'.Node? && t'.id == t.id
    ensures Ids(t') == Ids(t) + (if Locate(m, t, k).FreeLeft? || Locate(m, t, k).FreeRight? then {f} else {})
  {
    var Node(l, i, r) := t;
    if i !in m || m[i].key.None? then t
    else if k > m[i].key.value then
      (if r.Nil? then Node(l, i, Node(Nil, f, Nil)) else Node(l, i, InsertTree(m, r, k, f)))
    else if k < m[i].key.value then
      (if l.Nil? then Node(Node(Nil, f, Nil), i, r) else Node(InsertTree(m, l, k, f), i, r))
    else t
  }

  /**
   * The arena after `insert(k)`: a fresh record f for the new node, hung
   * with the setter into the free slot the descent ended at.  Nothing is
   * allocated when the descent ends elsewhere.
   */
  function Attached(m: Store, s: Spot, k: int, f: Ref): (m': Store)
    requires f !in m && s.node in m
    ensures s.FreeLeft? || s.FreeRight? ==>
      m'.Keys == m.Keys + {f} && m'[f] == Leaf(k).(parent := Some(s.node)) &&
      m'[s.node] == (if s.FreeLeft? then m[s.node].(left := Some(f)) else m[s.node].(right := Some(f)))
    ensures !(s.FreeLeft? || s.FreeRight?) ==> m' == m
    ensures forall q :: q in m && q != s.node ==> q in m' && m'[q] == m[q]
    ensures forall q :: q in m ==> q in m' && m'[q].key == m[q].key
  {
    var m1 := m[f := Leaf(k)];
    match s
    case FreeLeft(n) => WithLeft(m1, n, Some(f))
    case FreeRight(n) => WithRight(m1, n, Some(f))
    case _ => m
  }

  /**
   * Insertion into a tree the arena holds: the new arena holds the new shape,
   * which is still a tree.
   */
  lemma {:induction false} InsertHolds(m: Store, t: Tree, p: Option<Ref>, k: int, f: Ref)
    requires Holds(m, t, p) && Unique(t) && t.Node? && f !in m
    ensures Locate(m, t, k).node in m
    ensures Holds(Attached(m, Locate(m, t, k), k, f), InsertTree(m, t, k, f), p)
    ensures Unique(InsertTree(m, t, k, f))
  {
    HoldsInArena(m, t, p);
    var Node(l, i, r) := t;
    var s := Locate(m, t, k);
    var m' := Attached(m, s, k, f);
    if i !in m || m[i].key.None? || k == m[i].key.value {
    } else if k > m[i].key.value {
      if r.Nil? {
        HoldsFrame(m, m', l, Some(i));
      } else {
        InsertHolds(m, r, Some(i), k, f);
        assert s.node in Ids(r);
        HoldsFrame(m, m', l, Some(i));
      }
    } else {
      if l.Nil? {
        HoldsFrame(m, m', r, Some(i));
      } else {
        InsertHolds(m, l, Some(i), k, f);
        assert s.node in Ids(l);
        HoldsFrame(m, m', r, Some(i));
      }
    }
  }

  /**
   * m' keeps the key of every record of m, and gives the new node f the key
   * k when it has f at all (as the arena after an insertion does).
   */
  ghost predicate KeysKept(m: Store, m': Store, k: int, f: Ref) {
    (forall q :: q in m ==> q in m' && m'[q].key == m[q].key) &&
    (f in m' ==> m'[f].key == Some(k))
  }

  lemma AttachedKeepsKeys(m: Store, t: Tree, k: int, f: Ref)
    requires t.Node? && f !in m && Locate(m, t, k).node in m
    ensures var s := Locate(m, t, k); var m' := Attached(m, s, k, f);
      KeysKept(m, m', k, f) && (s.FreeLeft? || s.FreeRight? ==> f in m')
  {
  }

  /** With the keys kept, the new shape has the old keys and k. */
  lemma {:induction false} InsertAddsKeyTo(m: Store, m': Store, t: Tree, k: int, f: Ref)
    requires SearchTree(m, t) && Ids(t) <= m.Keys && t.Node? && f !in m
    requires KeysKept(m, m', k, f)
    requires Locate(m, t, k).FreeLeft? || Locate(m, t, k).FreeRight? ==> f in m'
    ensures Keys(m', InsertTree(m, t, k, f)) == Keys(m, t) + {k}
  {
    var Node(l, i, r) := t;
    var key := m[i].key.value;
    assert KeyOf(m', i) == KeyOf(m, i);
    if k > key {
      if r.Node? {
        InsertAddsKeyTo(m, m', r, k, f);
      } else {
        assert Keys(m', Node(Nil, f, Nil)) == {k};
      }
      SameKeys(m, m', l);
    } else if k < key {
      if l.Node? {
        InsertAddsKeyTo(m, m', l, k, f);
      } else {
        assert Keys(m', Node(Nil, f, Nil)) == {k};
      }
      SameKeys(m, m', r);
    } else {
      SameKeys(m, m', t);
    }
  }

  /** With the keys kept, the new shape is still a search tree. */
  lemma {:induction false} InsertKeepsOrderIn(m: Store, m': Store, t: Tree, k: int, f: Ref)
    requires SearchTree(m, t) && Ids(t) <= m.Keys && t.Node? && f !in m
    requires KeysKept(m, m', k, f)
    requires Locate(m, t, k).FreeLeft? || Locate(m, t, k).FreeRight? ==> f in m'
    ensures SearchTree(m', InsertTree(m, t, k, f))
    decreases t, 1
  {
    var key := m[t.id].key.value;
    if k > key {
      InsertRightKeepsOrder(m, m', t, k, f);
    } else if k < key {
      InsertLeftKeepsOrder(m, m', t, k, f);
    } else {
      SameKeys(m, m', t);
    }
  }

  /** InsertKeepsOrderIn when the key is larger than the root's. */
  lemma {:induction false} InsertRightKeepsOrder(m: Store, m': Store, t: Tree, k: int, f: Ref)
    requires SearchTree(m, t) && Ids(t) <= m.Keys && t.Node? && f !in m
    requires KeysKept(m, m', k, f)
    requires Locate(m, t, k).FreeLeft? || Locate(m, t, k).FreeRight? ==> f in m'
    requires k > m[t.id].key.value
    ensures SearchTree(m', InsertTree(m, t, k, f))
    decreases t, 0
  {
    var Node(l, i, r) := t;
    var r' := if r.Nil? then Node(Nil, f, Nil) else InsertTree(m, r, k, f);
    assert InsertTree(m, t, k, f) == Node(l, i, r');
    if r.Node? {
      InsertKeepsOrderIn(m, m', r, k, f);
      InsertAddsKeyTo(m, m', r, k, f);
    } else {
      assert Keys(m', r') == {k};
    }
    SameKeys(m, m', l);
    assert m'[i].key == m[i].key;
  }

  /** InsertKeepsOrderIn when the key is smaller than the root's. */
  lemma {:induction false} InsertLeftKeepsOrder(m: Store, m': Store, t: Tree, k: int, f: Ref)
    requires SearchTree(m, t) && Ids(t) <= m.Keys && t.Node? && f !in m
    requires KeysKept(m, m', k, f)
    requires Locate(m, t, k).FreeLeft? || Locate(m, t, k).FreeRight? ==> f in m'
    requires k < m[t.id].key.value
    ensures SearchTree(m', InsertTree(m, t, k, f))
    decreases t, 0
  {
    var Node(l, i, r) := t;
    var l' := if l.Nil? then Node(Nil, f, Nil) else InsertTree(m, l, k, f);
    assert InsertTree(m, t, k, f) == Node(l', i, r);
    if l.Node? {
      InsertKeepsOrderIn(m, m', l, k, f);
      InsertAddsKeyTo(m, m', l, k, f);
    } else {
      assert Keys(m', l') == {k};
    }
    SameKeys(m, m', r);
    assert m'[i].key == m[i].key;
  }

  /**
   * `insert(k)` on a search tree gives a search tree whose keys are the old
   * ones and k.
   */
  lemma InsertKeepsSearchTree(m: Store, t: Tree, k: int, f: Ref)
    requires SearchTree(m, t) && Ids(t) <= m.Keys && t.Node? && f !in m
    ensures Locate(m, t, k).node in m
    ensures SearchTree(Attached(m, Locate(m, t, k), k, f), InsertTree(m, t, k, f))
    ensures Keys(Attached(m, Locate(m, t, k), k, f), InsertTree(m, t, k, f)) == Keys(m, t) + {k}
  {
    AttachedKeepsKeys(m, t, k, f);
    var m' := Attached(m, Locate(m, t, k), k, f);
    InsertAddsKeyTo(m, m', t, k, f);
    InsertKeepsOrderIn(m, m', t, k, f);
  }

  /**
   * Duplicates are rejected: inserting a key the search tree has changes
   * nothing; inserting one it lacks adds exactly the one new node.
   */
  lemma InsertAddsOneNode(m: Store, t: Tree, k: int, f: Ref)
    requires SearchTree(m, t) && Ids(t) <= m.Keys && t.Node? && f !in m
    ensures Locate(m, t, k).node in m
    ensures k in Keys(m, t) ==> Attached(m, Locate(m, t, k), k, f) == m && InsertTree(m, t, k, f) == t
    ensures k !in Keys(m, t) ==> Ids(InsertTree(m, t, k, f)) == Ids(t) + {f} && f !in Ids(t)
  {
    LocateFindsKey(m, t, k);
    if k in Keys(m, t) {
      InsertTreeAtKey(m, t, k, f);
    }
  }

  /** When the descent finds the key, the shape is unchanged. */
  lemma {:induction false} InsertTreeAtKey(m: Store, t: Tree, k: int, f: Ref)
    requires t.Node? && Locate(m, t, k).Found?
    ensures InsertTree(m, t, k, f) == t
  {
    var Node(l, i, r) := t;
    if i in m && m[i].key.Some? {
      if k > m[i].key.value && r.Node? {
        InsertTreeAtKey(m, r, k, f);
      } else if k < m[i].key.value && l.Node? {
        InsertTreeAtKey(m, l, k, f);
      }
    }
  }
}
