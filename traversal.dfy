/** Depth-first pre-order walk of one tree of the compartment forest (vtkmorph.py, preorder_traversal).
    The walk keeps an explicit stack: each node's present children are pushed in list order and the
    stack is popped from the top, so the LAST child of a node is visited first. */
module Traversal {
  import opened Morphology
  import opened Wrappers

  /** A present child's rank is below its parent's, and it names the parent back. */
  lemma ChildLink(cs: map<int, Compartment>, rank: int -> nat, node: Compartment, c: Compartment)
    requires Forest(cs, rank) && Member(cs, node)
    requires c in PresentChildren(cs, node.children)
    ensures Member(cs, c) && rank(c.id) < rank(node.id) && c.parent == node.id
  {
    var kids := PresentChildren(cs, node.children);
    var i :| 0 <= i < |kids| && kids[i] == c;
    PresentChildFrom(cs, node.children, i);
    var j :| i <= j < |node.children| && node.children[j] == c.id;
    assert cs[node.id].children[j] == c.id;
  }

  /** The largest rank of the nodes in `stack` (0 for an empty stack). */
  function MaxRank(rank: int -> nat, stack: seq<Compartment>): (m: nat)
    ensures forall i :: 0 <= i < |stack| ==> rank(stack[i].id) <= m
    ensures stack != [] ==> exists i :: 0 <= i < |stack| && rank(stack[i].id) == m
  {
    if stack == [] then 0
    else
      var m := MaxRank(rank, stack[..|stack| - 1]);
      var r := rank(stack[|stack| - 1].id);
      if r > m then r else m
  }

  /** The pre-order sequence of the tree below `node`: the node itself, then the subtrees of its
      present children, the last child's subtree first. */
  ghost function Preorder(cs: map<int, Compartment>, rank: int -> nat, node: Compartment): (r: seq<Compartment>)
    requires Forest(cs, rank) && Member(cs, node)
    ensures |r| >= 1 && r[0] == node
    ensures forall i :: 0 <= i < |r| ==> Member(cs, r[i])
    decreases rank(node.id), 1, 0
  {
    var kids := PresentChildren(cs, node.children);
    if kids == [] then [node]
    else
      assert rank(kids[|kids| - 1].id) < rank(node.id) by {
        ChildLink(cs, rank, node, kids[|kids| - 1]);
      }
      assert MaxRank(rank, kids) < rank(node.id) by {
        forall i | 0 <= i < |kids| ensures rank(kids[i].id) < rank(node.id) {
          ChildLink(cs, rank, node, kids[i]);
        }
      }
      [node] + Pending(cs, rank, kids)
  }

  /** What the walk still emits for a stack of pending nodes: the top (last) node's subtree first. */
  ghost function Pending(cs: map<int, Compartment>, rank: int -> nat, stack: seq<Compartment>): (r: seq<Compartment>)
    requires Forest(cs, rank)
    requires forall i :: 0 <= i < |stack| ==> Member(cs, stack[i])
    ensures |r| >= |stack|
    ensures forall i :: 0 <= i < |r| ==> Member(cs, r[i])
    decreases MaxRank(rank, stack), 2, |stack|
  {
    if stack == [] then []
    else
      var init := stack[..|stack| - 1];
      assert MaxRank(rank, init) <= MaxRank(rank, stack) by {
        assert forall i :: 0 <= i < |init| ==> init[i] == stack[i];
      }
      Preorder(cs, rank, stack[|stack| - 1]) + Pending(cs, rank, init)
  }

  /** Pushing `b` on top of `a` means `b` is worked off first. */
  lemma {:induction false} PendingAppend(cs: map<int, Compartment>, rank: int -> nat, a: seq<Compartment>, b: seq<Compartment>)
    requires Forest(cs, rank)
    requires forall i :: 0 <= i < |a| ==> Member(cs, a[i])
    requires forall i :: 0 <= i < |b| ==> Member(cs, b[i])
    ensures Pending(cs, rank, a + b) == Pending(cs, rank, b) + Pending(cs, rank, a)
    decreases |b|
  {
    if b == [] {
      assert a + b == a;
    } else {
      var ab := a + b;
      var initB := b[..|b| - 1];
      assert ab[..|ab| - 1] == a + initB;
      assert ab[|ab| - 1] == b[|b| - 1];
      assert forall i :: 0 <= i < |initB| ==> initB[i] == b[i];
      PendingAppend(cs, rank, a, initB);
      var top := Preorder(cs, rank, b[|b| - 1]);
      assert Pending(cs, rank, ab) == top + Pending(cs, rank, a + initB);
      assert Pending(cs, rank, b) == top + Pending(cs, rank, initB);
      ConcatAssoc(top, Pending(cs, rank, initB), Pending(cs, rank, a));
    }
  }

  /** Emitting `node` and pushing its present children leaves the rest of the walk unchanged. */
  lemma VisitStep(cs: map<int, Compartment>, rank: int -> nat, node: Compartment, below: seq<Compartment>)
    requires Forest(cs, rank) && Member(cs, node)
    requires forall i :: 0 <= i < |below| ==> Member(cs, below[i])
    ensures Preorder(cs, rank, node) + Pending(cs, rank, below)
         == [node] + Pending(cs, rank, below + PresentChildren(cs, node.children))
  {
    var kids := PresentChildren(cs, node.children);
    var pk, pb := Pending(cs, rank, kids), Pending(cs, rank, below);
    if kids == [] {
      assert pk == [];
    }
    assert Preorder(cs, rank, node) == [node] + pk;
    PendingAppend(cs, rank, below, kids);
    ConcatAssoc([node], pk, pb);
  }

  /** The inner loop of preorder_traversal (vtkmorph.py:16-19): push every child id of `node` found in
      the map, in list order, and skip the others. */
  method PushChildren(nodestack: seq<Compartment>, node: Compartment, cs: map<int, Compartment>)
    returns (pushed: seq<Compartment>)
    requires forall k :: k in cs ==> cs[k].id == k
    ensures pushed == nodestack + PresentChildren(cs, node.children)
  {
    pushed := nodestack;
    var j := 0;
    while j < |node.children|
      invariant 0 <= j <= |node.children|
      invariant pushed == nodestack + PresentChildren(cs, node.children[..j])
    {
      var childId := node.children[j];
      assert node.children[..j + 1][..j] == node.children[..j];
      assert PresentChildren(cs, node.children[..j + 1])
          == PresentChildren(cs, node.children[..j]) + (if childId in cs then [cs[childId]] else []);
      if childId in cs {
        pushed := pushed + [cs[childId]];
      }
      j := j + 1;
    }
    assert node.children[..j] == node.children;
  }

  /** preorder_traversal (vtkmorph.py:7-26): an explicit stack, children pushed in list order, ids
      missing from the map skipped, the loop ending when the stack is empty. */
  method PreorderTraversal(root: Compartment, cs: map<int, Compartment>, ghost rank: int -> nat)
    returns (nodelist: seq<Compartment>)
    requires Forest(cs, rank) && Member(cs, root)
    ensures nodelist == Preorder(cs, rank, root)
  {
    var nodestack: seq<Compartment> := [];
    nodelist := [];
    var node := root;
    while true
      invariant Member(cs, node)
      invariant forall i :: 0 <= i < |nodestack| ==> Member(cs, nodestack[i])
      invariant nodelist + Preorder(cs, rank, node) + Pending(cs, rank, nodestack) == Preorder(cs, rank, root)
      decreases |Preorder(cs, rank, root)| - |nodelist|
    {
      ghost var before, below := nodelist, nodestack;
      nodelist := nodelist + [node];
      nodestack := PushChildren(nodestack, node, cs);
      VisitStep(cs, rank, node, below);
      ConcatAssoc(before, Preorder(cs, rank, node), Pending(cs, rank, below));
      ConcatAssoc(before, [node], Pending(cs, rank, nodestack));
      if |nodestack| == 0 {
        assert Pending(cs, rank, nodestack) == [];
        assert nodelist + [] == nodelist;
        break;
      }
      var top := nodestack[|nodestack| - 1];
      var rest := nodestack[..|nodestack| - 1];
      assert Pending(cs, rank, nodestack) == Preorder(cs, rank, top) + Pending(cs, rank, rest);
      ConcatAssoc(nodelist, Preorder(cs, rank, top), Pending(cs, rank, rest));
      nodestack := rest;
      node := top;
    }
  }

  /** The present children of a node sit below it in rank; this is what makes the walk finite. */
  lemma KidsRank(cs: map<int, Compartment>, rank: int -> nat, node: Compartment)
    requires Forest(cs, rank) && Member(cs, node)
    ensures var kids := PresentChildren(cs, node.children);
      && (forall i :: 0 <= i < |kids| ==> rank(kids[i].id) < rank(node.id) && kids[i].parent == node.id)
      && (kids != [] ==> MaxRank(rank, kids) < rank(node.id))
  {
    var kids := PresentChildren(cs, node.children);
    forall i | 0 <= i < |kids| ensures rank(kids[i].id) < rank(node.id) && kids[i].parent == node.id {
      ChildLink(cs, rank, node, kids[i]);
    }
  }

  /** Dropping the top of a stack does not raise its largest rank. */
  lemma InitRank(rank: int -> nat, stack: seq<Compartment>)
    requires stack != []
    ensures MaxRank(rank, stack[..|stack| - 1]) <= MaxRank(rank, stack)
  {
    var init := stack[..|stack| - 1];
    assert forall i :: 0 <= i < |init| ==> init[i] == stack[i];
  }

  /** `c` is a child of `p` that the walk pushes: its id is in p's children and in the map. */
  ghost predicate ChildOf(cs: map<int, Compartment>, c: Compartment, p: Compartment)
    requires forall k :: k in cs ==> cs[k].id == k
  {
    c in PresentChildren(cs, p.children)
  }

  /** The node at `j` of `r` is pushed by a node that comes before it. */
  ghost predicate PushedEarlier(cs: map<int, Compartment>, r: seq<Compartment>, j: int)
    requires forall k :: k in cs ==> cs[k].id == k
    requires 0 <= j < |r|
  {
    exists i :: 0 <= i < j && ChildOf(cs, r[j], r[i])
  }

  /** Every node of `r` after the first is pushed by a node that comes before it. */
  ghost predicate ReachedInOrder(cs: map<int, Compartment>, r: seq<Compartment>)
    requires forall k :: k in cs ==> cs[k].id == k
  {
    forall j :: 0 < j < |r| ==> PushedEarlier(cs, r, j)
  }

  /** Every node after the first is a present child of a node emitted before it: the walk reaches
      nothing except through child ids found in the map. */
  lemma {:induction false} PreorderReached(cs: map<int, Compartment>, rank: int -> nat, node: Compartment)
    requires Forest(cs, rank) && Member(cs, node)
    ensures ReachedInOrder(cs, Preorder(cs, rank, node))
    decreases rank(node.id), 1, 0
  {
    var r := Preorder(cs, rank, node);
    var kids := PresentChildren(cs, node.children);
    if kids != [] {
      KidsRank(cs, rank, node);
      PendingReached(cs, rank, kids);
      assert r == [node] + Pending(cs, rank, kids);
      ReachedBelow(cs, node, kids, Pending(cs, rank, kids));
    }
  }

  /** Every node of `r` is on `stack` or is pushed by a node that comes before it in `r`. */
  ghost predicate ReachedFrom(cs: map<int, Compartment>, r: seq<Compartment>, stack: seq<Compartment>)
    requires forall k :: k in cs ==> cs[k].id == k
  {
    forall j :: 0 <= j < |r| ==> r[j] in stack || PushedEarlier(cs, r, j)
  }

  lemma ReachedFromConcat(cs: map<int, Compartment>, a: seq<Compartment>, b: seq<Compartment>, stack: seq<Compartment>)
    requires forall k :: k in cs ==> cs[k].id == k
    requires ReachedFrom(cs, a, stack) && ReachedFrom(cs, b, stack)
    ensures ReachedFrom(cs, a + b, stack)
  {
    var p := a + b;
    forall j | |a| <= j < |p| ensures p[j] in stack || PushedEarlier(cs, p, j) {
      var k := j - |a|;
      assert p[j] == b[k];
      if b[k] !in stack {
        assert PushedEarlier(cs, b, k);
        var i :| 0 <= i < k && ChildOf(cs, b[k], b[i]);
        assert p[i + |a|] == b[i];
        assert ChildOf(cs, p[j], p[i + |a|]);
      }
    }
    forall j | 0 <= j < |a| ensures p[j] in stack || PushedEarlier(cs, p, j) {
      assert p[j] == a[j];
      if a[j] !in stack {
        assert PushedEarlier(cs, a, j);
        var i :| 0 <= i < j && ChildOf(cs, a[j], a[i]);
        assert p[i] == a[i];
        assert ChildOf(cs, p[j], p[i]);
      }
    }
  }

  /** One position of ReachedBelow: the node at `j` of `[node] + p` is pushed by an earlier node. */
  lemma ReachedBelowAt(cs: map<int, Compartment>, node: Compartment, kids: seq<Compartment>, p: seq<Compartment>, j: int)
    requires forall k :: k in cs ==> cs[k].id == k
    requires kids == PresentChildren(cs, node.children)
    requires 0 < j <= |p|
    requires p[j - 1] in kids || PushedEarlier(cs, p, j - 1)
    ensures PushedEarlier(cs, [node] + p, j)
  {
    var r := [node] + p;
    assert r[j] == p[j - 1];
    if p[j - 1] in kids {
      assert r[0] == node;
      assert ChildOf(cs, r[j], r[0]);
    } else {
      var i :| 0 <= i < j - 1 && ChildOf(cs, p[j - 1], p[i]);
      assert r[i + 1] == p[i];
      assert ChildOf(cs, r[j], r[i + 1]);
    }
  }

  /** A node followed by a sequence reached from its present children `kids` is reached in order. */
  lemma ReachedBelow(cs: map<int, Compartment>, node: Compartment, kids: seq<Compartment>, p: seq<Compartment>)
    requires forall k :: k in cs ==> cs[k].id == k
    requires kids == PresentChildren(cs, node.children)
    requires ReachedFrom(cs, p, kids)
    ensures ReachedInOrder(cs, [node] + p)
  {
    var r := [node] + p;
    forall j | 0 < j < |r| ensures PushedEarlier(cs, r, j) {
      ReachedBelowAt(cs, node, kids, p, j);
    }
  }

  lemma ReachedFromWider(cs: map<int, Compartment>, r: seq<Compartment>, small: seq<Compartment>, large: seq<Compartment>)
    requires forall k :: k in cs ==> cs[k].id == k
    requires forall x :: x in small ==> x in large
    requires ReachedFrom(cs, r, small)
    ensures ReachedFrom(cs, r, large)
  {
  }

  /** The stack form of PreorderReached: a node emitted for a stack was either on the stack or was
      pushed by a node emitted before it. */
  lemma {:induction false} PendingReached(cs: map<int, Compartment>, rank: int -> nat, stack: seq<Compartment>)
    requires Forest(cs, rank)
    requires forall i :: 0 <= i < |stack| ==> Member(cs, stack[i])
    ensures ReachedFrom(cs, Pending(cs, rank, stack), stack)
    decreases MaxRank(rank, stack), 2, |stack|
  {
    if stack != [] {
      var last, init := stack[|stack| - 1], stack[..|stack| - 1];
      InitRank(rank, stack);
      PreorderReached(cs, rank, last);
      PendingReached(cs, rank, init);
      var a, b := Preorder(cs, rank, last), Pending(cs, rank, init);
      assert Pending(cs, rank, stack) == a + b;
      assert forall x :: x in init ==> x in stack;
      ReachedFromWider(cs, b, init, stack);
      assert a[0] in stack;
      ReachedFromConcat(cs, a, b, stack);
    }
  }

  /** Ranks fall along every chain of pushes, so nothing after the first node ranks as high as it. */
  lemma {:induction false} RankBelowFirst(cs: map<int, Compartment>, rank: int -> nat, r: seq<Compartment>, j: int)
    requires Forest(cs, rank)
    requires forall i :: 0 <= i < |r| ==> Member(cs, r[i])
    requires ReachedInOrder(cs, r)
    requires 0 < j < |r|
    ensures rank(r[j].id) < rank(r[0].id)
    decreases j
  {
    assert PushedEarlier(cs, r, j);
    var i :| 0 <= i < j && ChildOf(cs, r[j], r[i]);
    ChildLink(cs, rank, r[i], r[j]);
    if i > 0 {
      RankBelowFirst(cs, rank, r, i);
    }
  }

  /** No two positions of `r` hold the same compartment id. */
  ghost predicate DistinctIds(r: seq<Compartment>)
  {
    forall i, j :: 0 <= i < j < |r| ==> r[i].id != r[j].id
  }

  /** Present children of one node have distinct ids (the forest has no repeated child id). */
  lemma {:induction false} PresentChildrenDistinct(cs: map<int, Compartment>, ids: seq<int>)
    requires forall k :: k in cs ==> cs[k].id == k
    requires forall i, j :: 0 <= i < j < |ids| ==> ids[i] != ids[j]
    ensures DistinctIds(PresentChildren(cs, ids))
  {
    if ids != [] {
      var init := ids[..|ids| - 1];
      var r0 := PresentChildren(cs, init);
      PresentChildrenDistinct(cs, init);
      var r := PresentChildren(cs, ids);
      forall i, j | 0 <= i < j < |r| ensures r[i].id != r[j].id {
        if j == |r0| {
          PresentChildFrom(cs, init, i);
          var m :| i <= m < |init| && init[m] == r0[i].id;
          assert r[j].id == ids[|ids| - 1] && r[i] == r0[i] && ids[m] == init[m];
        } else {
          assert r[i] == r0[i] && r[j] == r0[j];
        }
      }
    }
  }

  /** The subtrees of two different present children of one node share no compartment: climbing
      from a common node towards both subtree roots would reach the parent inside a subtree. */
  lemma {:induction false} SiblingSubtreesDisjoint(cs: map<int, Compartment>, rank: int -> nat,
                                                   parent: Compartment, a: seq<Compartment>, b: seq<Compartment>,
                                                   i: int, j: int)
    requires Forest(cs, rank) && Member(cs, parent)
    requires forall k :: 0 <= k < |a| ==> Member(cs, a[k])
    requires forall k :: 0 <= k < |b| ==> Member(cs, b[k])
    requires ReachedInOrder(cs, a) && ReachedInOrder(cs, b)
    requires |a| > 0 && |b| > 0 && ChildOf(cs, a[0], parent) && ChildOf(cs, b[0], parent) && a[0].id != b[0].id
    requires 0 <= i < |a| && 0 <= j < |b|
    ensures a[i].id != b[j].id
    decreases i + j
  {
    ChildLink(cs, rank, parent, a[0]);
    ChildLink(cs, rank, parent, b[0]);
    if a[i].id == b[j].id {
      if i == 0 && j > 0 {
        assert PushedEarlier(cs, b, j);
        var m :| 0 <= m < j && ChildOf(cs, b[j], b[m]);
        ChildLink(cs, rank, b[m], b[j]);
        if m > 0 { RankBelowFirst(cs, rank, b, m); }
        assert false;
      } else if i > 0 && j == 0 {
        assert PushedEarlier(cs, a, i);
        var m :| 0 <= m < i && ChildOf(cs, a[i], a[m]);
        ChildLink(cs, rank, a[m], a[i]);
        if m > 0 { RankBelowFirst(cs, rank, a, m); }
        assert false;
      } else if i > 0 && j > 0 {
        assert PushedEarlier(cs, a, i) && PushedEarlier(cs, b, j);
        var m :| 0 <= m < i && ChildOf(cs, a[i], a[m]);
        var n :| 0 <= n < j && ChildOf(cs, b[j], b[n]);
        ChildLink(cs, rank, a[m], a[i]);
        ChildLink(cs, rank, b[n], b[j]);
        SiblingSubtreesDisjoint(cs, rank, parent, a, b, m, n);
        assert false;
      }
    }
  }

  /** Every node emitted for a stack belongs to the subtree of one of the stacked nodes. */
  lemma {:induction false} PendingOrigin(cs: map<int, Compartment>, rank: int -> nat, stack: seq<Compartment>, j: int)
    requires Forest(cs, rank)
    requires forall i :: 0 <= i < |stack| ==> Member(cs, stack[i])
    requires 0 <= j < |Pending(cs, rank, stack)|
    ensures exists k, m ::
              0 <= k < |stack| && 0 <= m < |Preorder(cs, rank, stack[k])| &&
              Preorder(cs, rank, stack[k])[m] == Pending(cs, rank, stack)[j]
    decreases |stack|
  {
    var last, init := stack[|stack| - 1], stack[..|stack| - 1];
    var a := Preorder(cs, rank, last);
    assert Pending(cs, rank, stack) == a + Pending(cs, rank, init);
    if j < |a| {
      assert Preorder(cs, rank, stack[|stack| - 1])[j] == Pending(cs, rank, stack)[j];
    } else {
      PendingOrigin(cs, rank, init, j - |a|);
      var k, m :| 0 <= k < |init| && 0 <= m < |Preorder(cs, rank, init[k])| &&
        Preorder(cs, rank, init[k])[m] == Pending(cs, rank, init)[j - |a|];
      assert init[k] == stack[k];
    }
  }

  lemma DistinctConcat(a: seq<Compartment>, b: seq<Compartment>)
    requires DistinctIds(a) && DistinctIds(b)
    requires forall i, j :: 0 <= i < |a| && 0 <= j < |b| ==> a[i].id != b[j].id
    ensures DistinctIds(a + b)
  {
    var r := a + b;
    forall i, j | 0 <= i < j < |r| ensures r[i].id != r[j].id {
      if j < |a| {
        assert r[i] == a[i] && r[j] == a[j];
      } else if i >= |a| {
        assert r[i] == b[i - |a|] && r[j] == b[j - |a|];
      } else {
        assert r[i] == a[i] && r[j] == b[j - |a|];
      }
    }
  }

  /** The walk emits each compartment of the tree once: no id occurs twice in the pre-order. */
  lemma {:induction false} PreorderDistinct(cs: map<int, Compartment>, rank: int -> nat, node: Compartment)
    requires Forest(cs, rank) && UniqueChildren(cs) && Member(cs, node)
    ensures DistinctIds(Preorder(cs, rank, node))
    decreases rank(node.id), 1, 0
  {
    var kids := PresentChildren(cs, node.children);
    if kids != [] {
      KidsRank(cs, rank, node);
      PresentChildrenDistinct(cs, node.children);
      assert forall i :: 0 <= i < |kids| ==> ChildOf(cs, kids[i], node);
      PendingDistinct(cs, rank, node, kids);
      var p := Pending(cs, rank, kids);
      PendingReached(cs, rank, kids);
      forall j | 0 <= j < |p| ensures node.id != p[j].id {
        PendingOrigin(cs, rank, kids, j);
        var k, m :| 0 <= k < |kids| && 0 <= m < |Preorder(cs, rank, kids[k])| &&
          Preorder(cs, rank, kids[k])[m] == p[j];
        PreorderReached(cs, rank, kids[k]);
        if m > 0 { RankBelowFirst(cs, rank, Preorder(cs, rank, kids[k]), m); }
      }
      DistinctConcat([node], p);
    }
  }

  /** The stack form of PreorderDistinct, for a stack of distinct present children of one node. */
  lemma {:induction false} PendingDistinct(cs: map<int, Compartment>, rank: int -> nat, parent: Compartment,
                                           stack: seq<Compartment>)
    requires Forest(cs, rank) && UniqueChildren(cs) && Member(cs, parent)
    requires forall i :: 0 <= i < |stack| ==> Member(cs, stack[i]) && ChildOf(cs, stack[i], parent)
    requires DistinctIds(stack)
    ensures DistinctIds(Pending(cs, rank, stack))
    decreases MaxRank(rank, stack), 2, |stack|
  {
    if stack != [] {
      var last, init := stack[|stack| - 1], stack[..|stack| - 1];
      InitRank(rank, stack);
      PreorderDistinct(cs, rank, last);
      PendingDistinct(cs, rank, parent, init);
      var a, b := Preorder(cs, rank, last), Pending(cs, rank, init);
      PreorderReached(cs, rank, last);
      forall i, j | 0 <= i < |a| && 0 <= j < |b| ensures a[i].id != b[j].id {
        PendingOrigin(cs, rank, init, j);
        var k, m :| 0 <= k < |init| && 0 <= m < |Preorder(cs, rank, init[k])| &&
          Preorder(cs, rank, init[k])[m] == b[j];
        assert init[k] == stack[k];
        PreorderReached(cs, rank, init[k]);
        SiblingSubtreesDisjoint(cs, rank, parent, a, Preorder(cs, rank, init[k]), i, m);
      }
      DistinctConcat(a, b);
    }
  }

  /** If the node at `i` has present children, the node after it is its last present child (pushed
      last, popped first). */
  ghost predicate FollowsAt(cs: map<int, Compartment>, r: seq<Compartment>, i: int)
    requires forall k :: k in cs ==> cs[k].id == k
    requires 0 <= i < |r|
  {
    var kids := PresentChildren(cs, r[i].children);
    kids != [] ==> i + 1 < |r| && r[i + 1] == kids[|kids| - 1]
  }

  /** Whenever a node has present children, the next node emitted is its last present child. */
  ghost predicate LastChildFollows(cs: map<int, Compartment>, r: seq<Compartment>)
    requires forall k :: k in cs ==> cs[k].id == k
  {
    forall i :: 0 <= i < |r| ==> FollowsAt(cs, r, i)
  }

  lemma LastChildFollowsConcat(cs: map<int, Compartment>, a: seq<Compartment>, b: seq<Compartment>)
    requires forall k :: k in cs ==> cs[k].id == k
    requires LastChildFollows(cs, a) && LastChildFollows(cs, b)
    ensures LastChildFollows(cs, a + b)
  {
    var r := a + b;
    forall i | 0 <= i < |r| ensures FollowsAt(cs, r, i) {
      if i < |a| {
        assert FollowsAt(cs, a, i);
        assert r[i] == a[i];
        if i + 1 < |a| {
          assert r[i + 1] == a[i + 1];
        }
      } else {
        assert FollowsAt(cs, b, i - |a|);
        assert r[i] == b[i - |a|];
        if i + 1 < |r| {
          assert r[i + 1] == b[i + 1 - |a|];
        }
      }
    }
  }

  lemma LastChildFollowsCons(cs: map<int, Compartment>, node: Compartment, p: seq<Compartment>)
    requires forall k :: k in cs ==> cs[k].id == k
    requires LastChildFollows(cs, p)
    requires FollowsAt(cs, [node] + p, 0)
    ensures LastChildFollows(cs, [node] + p)
  {
    var r := [node] + p;
    forall i | 0 < i < |r| ensures FollowsAt(cs, r, i) {
      assert FollowsAt(cs, p, i - 1);
      assert r[i] == p[i - 1];
      if i + 1 < |r| {
        assert r[i + 1] == p[i];
      }
    }
  }

  /** The walk visits a node's last present child right after the node. */
  lemma {:induction false} PreorderLastChildNext(cs: map<int, Compartment>, rank: int -> nat, node: Compartment)
    requires Forest(cs, rank) && Member(cs, node)
    ensures LastChildFollows(cs, Preorder(cs, rank, node))
    decreases rank(node.id), 1, 0
  {
    var kids := PresentChildren(cs, node.children);
    if kids == [] {
      assert ([node] + [])[0] == node;
      LastChildFollowsCons(cs, node, []);
      assert [node] + [] == [node];
    } else {
      KidsRank(cs, rank, node);
      PendingLastChildNext(cs, rank, kids);
      var p := Pending(cs, rank, kids);
      assert p == Preorder(cs, rank, kids[|kids| - 1]) + Pending(cs, rank, kids[..|kids| - 1]);
      assert ([node] + p)[0] == node && ([node] + p)[1] == p[0];
      LastChildFollowsCons(cs, node, p);
    }
  }

  lemma {:induction false} PendingLastChildNext(cs: map<int, Compartment>, rank: int -> nat, stack: seq<Compartment>)
    requires Forest(cs, rank)
    requires forall i :: 0 <= i < |stack| ==> Member(cs, stack[i])
    ensures LastChildFollows(cs, Pending(cs, rank, stack))
    decreases MaxRank(rank, stack), 2, |stack|
  {
    if stack != [] {
      var last, init := stack[|stack| - 1], stack[..|stack| - 1];
      InitRank(rank, stack);
      PreorderLastChildNext(cs, rank, last);
      PendingLastChildNext(cs, rank, init);
      LastChildFollowsConcat(cs, Preorder(cs, rank, last), Pending(cs, rank, init));
    }
  }

  /** Every present child of a node in `r` is itself in `r`. */
  ghost predicate ClosedUnderChildren(cs: map<int, Compartment>, r: seq<Compartment>)
    requires forall k :: k in cs ==> cs[k].id == k
  {
    forall i, c :: 0 <= i < |r| && c in PresentChildren(cs, r[i].children) ==> c in r
  }

  lemma ClosedConcat(cs: map<int, Compartment>, a: seq<Compartment>, b: seq<Compartment>)
    requires forall k :: k in cs ==> cs[k].id == k
    requires ClosedUnderChildren(cs, a) && ClosedUnderChildren(cs, b)
    ensures ClosedUnderChildren(cs, a + b)
  {
    var r := a + b;
    forall i, c | 0 <= i < |r| && c in PresentChildren(cs, r[i].children) ensures c in r {
      if i < |a| {
        assert r[i] == a[i];
      } else {
        assert r[i] == b[i - |a|];
      }
    }
  }

  /** The walk misses nothing: every present child of a visited node is visited too. */
  lemma {:induction false} PreorderClosed(cs: map<int, Compartment>, rank: int -> nat, node: Compartment)
    requires Forest(cs, rank) && Member(cs, node)
    ensures ClosedUnderChildren(cs, Preorder(cs, rank, node))
    decreases rank(node.id), 1, 0
  {
    var kids := PresentChildren(cs, node.children);
    var r := Preorder(cs, rank, node);
    if kids == [] {
      assert r == [node];
    } else {
      KidsRank(cs, rank, node);
      PendingClosed(cs, rank, kids);
      var p := Pending(cs, rank, kids);
      assert r == [node] + p;
      forall i, c | 0 <= i < |r| && c in PresentChildren(cs, r[i].children) ensures c in r {
        if i == 0 {
          assert c in p;
        } else {
          assert r[i] == p[i - 1];
        }
      }
    }
  }

  lemma {:induction false} PendingClosed(cs: map<int, Compartment>, rank: int -> nat, stack: seq<Compartment>)
    requires Forest(cs, rank)
    requires forall i :: 0 <= i < |stack| ==> Member(cs, stack[i])
    ensures ClosedUnderChildren(cs, Pending(cs, rank, stack))
    ensures forall i :: 0 <= i < |stack| ==> stack[i] in Pending(cs, rank, stack)
    decreases MaxRank(rank, stack), 2, |stack|
  {
    if stack != [] {
      var last, init := stack[|stack| - 1], stack[..|stack| - 1];
      InitRank(rank, stack);
      PreorderClosed(cs, rank, last);
      PendingClosed(cs, rank, init);
      var a, b := Preorder(cs, rank, last), Pending(cs, rank, init);
      ClosedConcat(cs, a, b);
      assert Pending(cs, rank, stack) == a + b;
      forall i | 0 <= i < |stack| ensures stack[i] in a + b {
        if i == |stack| - 1 {
          assert (a + b)[0] == stack[i];
        } else {
          assert stack[i] == init[i];
          assert stack[i] in b;
        }
      }
    }
  }

  /** The node at `j` is a present child of an earlier node and names that node as its parent. */
  ghost predicate PushedByParent(cs: map<int, Compartment>, r: seq<Compartment>, j: int)
    requires forall k :: k in cs ==> cs[k].id == k
    requires 0 <= j < |r|
  {
    exists i :: 0 <= i < j && ChildOf(cs, r[j], r[i]) && r[j].parent == r[i].id
  }

  /** A node pushed by an earlier node of a forest names that node as its parent. */
  lemma PushedByParentAt(cs: map<int, Compartment>, rank: int -> nat, r: seq<Compartment>, j: int)
    requires Forest(cs, rank)
    requires forall i :: 0 <= i < |r| ==> Member(cs, r[i])
    requires 0 < j < |r| && PushedEarlier(cs, r, j)
    ensures PushedByParent(cs, r, j)
  {
    var i :| 0 <= i < j && ChildOf(cs, r[j], r[i]);
    ChildLink(cs, rank, r[i], r[j]);
  }

  /** Every node of a pre-order after the root is pushed by its parent, which comes before it. */
  lemma PreorderParents(cs: map<int, Compartment>, rank: int -> nat, root: Compartment)
    requires Forest(cs, rank) && Member(cs, root)
    ensures forall j :: 0 < j < |Preorder(cs, rank, root)| ==> PushedByParent(cs, Preorder(cs, rank, root), j)
  {
    var r := Preorder(cs, rank, root);
    PreorderReached(cs, rank, root);
    forall j | 0 < j < |r| ensures PushedByParent(cs, r, j) {
      PushedByParentAt(cs, rank, r, j);
    }
  }

  /** On a well-formed forest, the pre-order of a root is exactly a walk of its tree: the root first,
      every later node a present child of, and so after, its parent; every present child of a visited
      node visited; a node's last present child right after it; and, when no children list repeats
      an id, no compartment twice. */
  lemma PreorderWalksTree(cs: map<int, Compartment>, rank: int -> nat, root: Compartment)
    requires Forest(cs, rank) && Member(cs, root)
    ensures var r := Preorder(cs, rank, root);
      && r[0] == root
      && (forall j :: 0 < j < |r| ==> PushedByParent(cs, r, j))
      && ClosedUnderChildren(cs, r)
      && (UniqueChildren(cs) ==> DistinctIds(r))
      && LastChildFollows(cs, r)
  {
    PreorderParents(cs, rank, root);
    PreorderClosed(cs, rank, root);
    if UniqueChildren(cs) {
      PreorderDistinct(cs, rank, root);
    }
    PreorderLastChildNext(cs, rank, root);
  }
}
