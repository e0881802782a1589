/**
 * The three depth-first traversals and the JSON serialisation of a node.
 *
 * A traversal calls the visitor once per node, with the node and its depth
 * below the node the traversal started from; the visitor may answer STOP,
 * which ends the whole traversal at once.  The visitor is modelled by what
 * matters to the traversal, `stop`: which calls it answers STOP to.  A
 * traversal's result is the sequence of calls it made and whether it ended
 * with STOP.  The traversals walk the shape `Tree` that the arena holds
 * (`Shape.Holds`), so they follow exactly the `left` and `right` links.
 */
module Traversal {
  import opened Links
  import opened Shape

  /** One call of the visitor: the node and the depth it is visited at. */
  datatype Call = Call(node: Ref, depth: nat)

  /** The calls a traversal made, and whether it returned STOP. */
  datatype Walk = Walk(calls: seq<Call>, stopped: bool)

  // ---- The traversals ----


  /**
   * `visitPreorder`: the node, then its left subtree, then its right one,
   * the children one level deeper.  A null child is skipped.
   */
  function VisitPreorder(t: Tree, d: nat, stop: Call -> bool): Walk {
    match t
    case Nil => Walk([], false)
    case Node(l, i, r) =>
      if stop(Call(i, d)) then Walk([Call(i, d)], true)
      else
        var wl := VisitPreorder(l, d + 1, stop);
        if wl.stopped then Walk([Call(i, d)] + wl.calls, true)
        else
          var wr := VisitPreorder(r, d + 1, stop);
          Walk([Call(i, d)] + wl.calls + wr.calls, wr.stopped)
  }

  /** `visitInorder`: the left subtree, the node, then the right subtree. */
  function VisitInorder(t: Tree, d: nat, stop: Call -> bool): Walk {
    match t
    case Nil => Walk([], false)
    case Node(l, i, r) =>
      var wl := VisitInorder(l, d + 1, stop);
      if wl.stopped then wl
      else if stop(Call(i, d)) then Walk(wl.calls + [Call(i, d)], true)
      else
        var wr := VisitInorder(r, d + 1, stop);
        Walk(wl.calls + [Call(i, d)] + wr.calls, wr.stopped)
  }

  /** `visitPostorder`: the left subtree, the right subtree, then the node. */
  function VisitPostorder(t: Tree, d: nat, stop: Call -> bool): Walk {
    match t
    case Nil => Walk([], false)
    case Node(l, i, r) =>
      var wl := VisitPostorder(l, d + 1, stop);
      if wl.stopped then wl
      else
        var wr := VisitPostorder(r, d + 1, stop);
        if wr.stopped then Walk(wl.calls + wr.calls, true)
        else Walk(wl.calls + wr.calls + [Call(i, d)], stop(Call(i, d)))
  }

  // ---- The full visit orders ----

  /** Every call preorder makes when the visitor never stops. */
  function PreorderCalls(t: Tree, d: nat): seq<Call> {
    match t
    case Nil => []
    case Node(l, i, r) => [Call(i, d)] + PreorderCalls(l, d + 1) + PreorderCalls(r, d + 1)
  }

  /** Every call inorder makes when the visitor never stops. */
  function InorderCalls(t: Tree, d: nat): seq<Call> {
    match t
    case Nil => []
    case Node(l, i, r) => InorderCalls(l, d + 1) + [Call(i, d)] + InorderCalls(r, d + 1)
  }

  /** Every call postorder makes when the visitor never stops. */
  function PostorderCalls(t: Tree, d: nat): seq<Call> {
    match t
    case Nil => []
    case Node(l, i, r) => PostorderCalls(l, d + 1) + PostorderCalls(r, d + 1) + [Call(i, d)]
  }

  /**
   * A sequence of calls cut just after the first call the visitor answers
   * STOP to; the whole sequence when there is none.
   */
  function CutAtStop(s: seq<Call>, stop: Call -> bool): Walk {
    if s == [] then Walk([], false)
    else if stop(s[0]) then Walk([s[0]], true)
    else
      var w := CutAtStop(s[1..], stop);
      Walk([s[0]] + w.calls, w.stopped)
  }

  /**
   * CutAtStop is the prefix of s that ends at the first call answered STOP:
   * it stops exactly when some call is answered STOP, its last call is then
   * answered STOP and none before it is, and without a STOP it is all of s.
   */
  lemma {:induction false} CutAtStopIsFirstStop(s: seq<Call>, stop: Call -> bool)
    ensures var w := CutAtStop(s, stop);
      (w.stopped <==> exists j :: 0 <= j < |s| && stop(s[j])) &&
      w.calls <= s &&
      (w.stopped ==> |w.calls| > 0 && stop(w.calls[|w.calls| - 1])) &&
      (forall j :: 0 <= j < |w.calls| - 1 ==> !stop(w.calls[j])) &&
      (!w.stopped ==> w.calls == s)
  {
    if s != [] && !stop(s[0]) {
      CutAtStopIsFirstStop(s[1..], stop);
      assert forall j :: 1 <= j < |s| ==> s[j] == s[1..][j - 1];
      var w := CutAtStop(s[1..], stop);
      assert CutAtStop(s, stop).calls == [s[0]] + w.calls;
      if w.stopped {
        var j :| 0 <= j < |s[1..]| && stop(s[1..][j]);
        assert stop(s[j + 1]);
      }
    }
  }

  /** A walk through s that does not stop makes every call of s. */
  lemma {:induction false} CutWithoutStop(s: seq<Call>, stop: Call -> bool)
    ensures !CutAtStop(s, stop).stopped ==> CutAtStop(s, stop).calls == s
  {
    if s != [] && !stop(s[0]) {
      CutWithoutStop(s[1..], stop);
      assert [s[0]] + s[1..] == s;
    }
  }

  /** Cutting a sequence that starts with the call c. */
  lemma CutCons(c: Call, s: seq<Call>, stop: Call -> bool)
    ensures CutAtStop([c] + s, stop) ==
      if stop(c) then Walk([c], true) else Walk([c] + CutAtStop(s, stop).calls, CutAtStop(s, stop).stopped)
  {
    assert ([c] + s)[0] == c && ([c] + s)[1..] == s;
  }

  /** Cutting a concatenation: stop inside the first part, or go on into the second. */
  lemma {:induction false} CutAppend(a: seq<Call>, b: seq<Call>, stop: Call -> bool)
    ensures CutAtStop(a + b, stop) ==
      (var wa := CutAtStop(a, stop);
       if wa.stopped then wa else Walk(a + CutAtStop(b, stop).calls, CutAtStop(b, stop).stopped))
  {
    if a == [] {
      assert a + b == b;
    } else {
      CutAppend(a[1..], b, stop);
      CutCons(a[0], a[1..] + b, stop);
      CutCons(a[0], a[1..], stop);
      assert [a[0]] + a[1..] == a;
      assert [a[0]] + (a[1..] + b) == a + b;
      assert [a[0]] + (a[1..] + CutAtStop(b, stop).calls) == a + CutAtStop(b, stop).calls;
    }
  }

  // ---- Early stopping ----

  /**
   * Preorder visits exactly the full preorder sequence up to and including
   * the first call answered STOP, and returns STOP exactly when there is one.
   */
  lemma {:induction false} PreorderStopsAtFirst(t: Tree, d: nat, stop: Call -> bool)
    ensures VisitPreorder(t, d, stop) == CutAtStop(PreorderCalls(t, d), stop)
  {
    match t
    case Nil =>
    case Node(l, i, r) =>
      PreorderStopsAtFirst(l, d + 1, stop);
      PreorderStopsAtFirst(r, d + 1, stop);
      var L, R := PreorderCalls(l, d + 1), PreorderCalls(r, d + 1);
      assert PreorderCalls(t, d) == [Call(i, d)] + (L + R);
      CutCons(Call(i, d), L + R, stop);
      if !stop(Call(i, d)) {
        CutAppend(L, R, stop);
        CutWithoutStop(L, stop);
        if !CutAtStop(L, stop).stopped {
          assert [Call(i, d)] + L + CutAtStop(R, stop).calls == [Call(i, d)] + (L + CutAtStop(R, stop).calls);
        }
      }
  }

  /** Inorder visits exactly the full inorder sequence up to the first STOP. */
  lemma {:induction false} InorderStopsAtFirst(t: Tree, d: nat, stop: Call -> bool)
    ensures VisitInorder(t, d, stop) == CutAtStop(InorderCalls(t, d), stop)
  {
    match t
    case Nil =>
    case Node(l, i, r) =>
      InorderStopsAtFirst(l, d + 1, stop);
      InorderStopsAtFirst(r, d + 1, stop);
      var L, R := InorderCalls(l, d + 1), InorderCalls(r, d + 1);
      assert InorderCalls(t, d) == L + ([Call(i, d)] + R);
      CutAppend(L, [Call(i, d)] + R, stop);
      if !CutAtStop(L, stop).stopped {
        CutCons(Call(i, d), R, stop);
        CutWithoutStop(L, stop);
        assert L + ([Call(i, d)] + CutAtStop(R, stop).calls) == L + [Call(i, d)] + CutAtStop(R, stop).calls;
      }
  }

  /** Postorder visits exactly the full postorder sequence up to the first STOP. */
  lemma {:induction false} PostorderStopsAtFirst(t: Tree, d: nat, stop: Call -> bool)
    ensures VisitPostorder(t, d, stop) == CutAtStop(PostorderCalls(t, d), stop)
  {
    match t
    case Nil =>
    case Node(l, i, r) =>
      PostorderStopsAtFirst(l, d + 1, stop);
      PostorderStopsAtFirst(r, d + 1, stop);
      var L, R := PostorderCalls(l, d + 1), PostorderCalls(r, d + 1);
      assert PostorderCalls(t, d) == L + (R + [Call(i, d)]);
      CutAppend(L, R + [Call(i, d)], stop);
      CutAppend(R, [Call(i, d)], stop);
      CutCons(Call(i, d), [], stop);
      CutWithoutStop(L, stop);
      CutWithoutStop(R, stop);
      assert [Call(i, d)] + [] == [Call(i, d)];
      assert L + (R + [Call(i, d)]) == L + R + [Call(i, d)];
  }

  // ---- What the full orders contain ----

  /** The nodes of a sequence of calls, in order. */
  function Nodes(s: seq<Call>): seq<Ref> {
    if s == [] then [] else [s[0].node] + Nodes(s[1..])
  }

  lemma {:induction false} NodesAppend(a: seq<Call>, b: seq<Call>)
    ensures Nodes(a + b) == Nodes(a) + Nodes(b)
  {
    if a == [] {
      assert a + b == b;
    } else {
      NodesAppend(a[1..], b);
      assert (a + b)[1..] == a[1..] + b;
      assert Nodes(a + b) == [a[0].node] + Nodes(a[1..] + b);
    }
  }

  /** Inorder visits the nodes in the tree's in-order sequence. */
  lemma {:induction false} InorderCallsNodes(t: Tree, d: nat)
    ensures Nodes(InorderCalls(t, d)) == Inorder(t)
  {
    match t
    case Nil =>
    case Node(l, i, r) =>
      InorderCallsNodes(l, d + 1);
      InorderCallsNodes(r, d + 1);
      NodesAppend(InorderCalls(l, d + 1) + [Call(i, d)], InorderCalls(r, d + 1));
      NodesAppend(InorderCalls(l, d + 1), [Call(i, d)]);
  }

  /**
   * So a rotation anywhere in the tree leaves the nodes an inorder visit of
   * the tree sees, and their order, unchanged.
   */
  lemma RotateKeepsInorderVisit(t: Tree, x: Ref, d: nat)
    ensures Nodes(InorderCalls(RotateAt(t, x), d)) == Nodes(InorderCalls(t, d))
  {
    InorderCallsNodes(t, d);
    InorderCallsNodes(RotateAt(t, x), d);
    RotateAtKeepsInorder(t, x);
  }

  /** The three orders make the same calls, only in a different order. */
  lemma {:induction false} OrdersArePermutations(t: Tree, d: nat)
    ensures multiset(PreorderCalls(t, d)) == multiset(InorderCalls(t, d))
    ensures multiset(PostorderCalls(t, d)) == multiset(InorderCalls(t, d))
  {
    match t
    case Nil =>
    case Node(l, i, r) =>
      OrdersArePermutations(l, d + 1);
      OrdersArePermutations(r, d + 1);
  }

  /** Every call of s visits a node of t at its depth in t plus d. */
  predicate AtTreeDepths(s: seq<Call>, t: Tree, d: nat) {
    forall j :: 0 <= j < |s| ==> s[j].node in Ids(t) && s[j].depth == d + Depth(t, s[j].node)
  }

  /** A call found in a subtree's calls is at the right depth for the whole tree. */
  lemma SubtreeDepths(s: seq<Call>, t: Tree, d: nat, left: bool)
    requires Unique(t) && t.Node?
    requires AtTreeDepths(s, if left then t.left else t.right, d + 1)
    ensures AtTreeDepths(s, t, d)
  {
    forall j | 0 <= j < |s| ensures s[j].node in Ids(t) && s[j].depth == d + Depth(t, s[j].node) {
      if !left { assert s[j].node !in Ids(t.left); }
    }
  }

  /**
   * In a tree, preorder calls the visitor for each node at its depth: the
   * start depth plus the number of links down from the start node.
   */
  lemma {:induction false} PreorderDepths(t: Tree, d: nat)
    requires Unique(t)
    ensures AtTreeDepths(PreorderCalls(t, d), t, d)
  {
    match t
    case Nil =>
    case Node(l, i, r) =>
      PreorderDepths(l, d + 1);
      PreorderDepths(r, d + 1);
      SubtreeDepths(PreorderCalls(l, d + 1), t, d, true);
      SubtreeDepths(PreorderCalls(r, d + 1), t, d, false);
  }

  /** Inorder calls the visitor for each node at its depth. */
  lemma {:induction false} InorderDepths(t: Tree, d: nat)
    requires Unique(t)
    ensures AtTreeDepths(InorderCalls(t, d), t, d)
  {
    match t
    case Nil =>
    case Node(l, i, r) =>
      InorderDepths(l, d + 1);
      InorderDepths(r, d + 1);
      SubtreeDepths(InorderCalls(l, d + 1), t, d, true);
      SubtreeDepths(InorderCalls(r, d + 1), t, d, false);
  }

  /** Postorder calls the visitor for each node at its depth. */
  lemma {:induction false} PostorderDepths(t: Tree, d: nat)
    requires Unique(t)
    ensures AtTreeDepths(PostorderCalls(t, d), t, d)
  {
    match t
    case Nil =>
    case Node(l, i, r) =>
      PostorderDepths(l, d + 1);
      PostorderDepths(r, d + 1);
      SubtreeDepths(PostorderCalls(l, d + 1), t, d, true);
      SubtreeDepths(PostorderCalls(r, d + 1), t, d, false);
  }

  /**
   * The three-node example: root 0 with children 1 (left) and 2 (right),
   * and a visitor that answers STOP at node 1.  Preorder makes two calls,
   * inorder and postorder one.
   */
  lemma StopAtLeftLeaf()
    ensures var t, stop := Node(Node(Nil, 1, Nil), 0, Node(Nil, 2, Nil)), (c: Call) => c.node == 1;
      VisitPreorder(t, 0, stop) == Walk([Call(0, 0), Call(1, 1)], true) &&
      VisitInorder(t, 0, stop) == Walk([Call(1, 1)], true) &&
      VisitPostorder(t, 0, stop) == Walk([Call(1, 1)], true)
  {
  }

  // ---- toJSON ----

  /** The structure of `toJSON`: one object per node with its children's objects. */
  datatype Json = Json(children: seq<Json>)

  /** `n.toJSON()` for the node at the root of t. */
  function ToJson(t: Tree): Json
    requires t.Node?
  {
    Json((if t.left.Node? then [ToJson(t.left)] else []) + (if t.right.Node? then [ToJson(t.right)] else []))
  }

  /** The number of objects in a JSON structure. */
  function JsonSize(j: Json): nat {
    1 + JsonSizes(j.children)
  }

  function JsonSizes(js: seq<Json>): nat {
    if js == [] then 0 else JsonSize(js[0]) + JsonSizes(js[1..])
  }

  lemma {:induction false} JsonSizesAppend(a: seq<Json>, b: seq<Json>)
    ensures JsonSizes(a + b) == JsonSizes(a) + JsonSizes(b)
  {
    if a != [] {
      JsonSizesAppend(a[1..], b);
      assert (a + b)[1..] == a[1..] + b;
    } else {
      assert a + b == b;
    }
  }

  /** A node's JSON object has one child object per child getChildren lists. */
  lemma JsonChildrenAreChildList(m: Store, t: Tree, p: Option<Ref>)
    requires Holds(m, t, p) && t.Node?
    ensures |ToJson(t).children| == |ChildList(m[t.id])|
  {
  }

  /** The JSON structure has one object per node of the tree. */
  lemma {:induction false} JsonSizeIsNodeCount(t: Tree)
    requires Unique(t) && t.Node?
    ensures JsonSize(ToJson(t)) == |Ids(t)|
  {
    var Node(l, i, r) := t;
    var kl := if l.Node? then [ToJson(l)] else [];
    var kr := if r.Node? then [ToJson(r)] else [];
    JsonSizesAppend(kl, kr);
    if l.Node? {
      JsonSizeIsNodeCount(l);
      assert JsonSizes(kl) == |Ids(l)| by { assert kl[1..] == []; }
    }
    if r.Node? {
      JsonSizeIsNodeCount(r);
      assert JsonSizes(kr) == |Ids(r)| by { assert kr[1..] == []; }
    }
    assert |Ids(l) + {i}| == |Ids(l)| + 1;
    assert |Ids(l) + {i} + Ids(r)| == |Ids(l) + {i}| + |Ids(r)|;
  }
}
