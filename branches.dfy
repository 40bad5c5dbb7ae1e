/** What the cell array built by morphology_polydata (vtkmorph.py) means: exactly one cell per leaf,
    every cell a branch of the tree that ends at that leaf, and every index a point of the data. */
module Branches {
  import opened Morphology
  import opened Traversal
  import opened PolyData

  /** The number of leaves among the nodes `v`. */
  function LeafCount(v: seq<Compartment>): (k: nat)
    ensures k <= |v|
  {
    if v == [] then 0 else LeafCount(v[..|v| - 1]) + (if IsLeaf(v[|v| - 1]) then 1 else 0)
  }

  /** The positions of `v` that hold a leaf. */
  ghost function LeafPositions(v: seq<Compartment>): set<int>
  {
    set j | 0 <= j < |v| && IsLeaf(v[j])
  }

  /** LeafCount counts exactly the positions of `v` that hold a leaf. */
  lemma {:induction false} LeafCountCounts(v: seq<Compartment>)
    ensures LeafCount(v) == |LeafPositions(v)|
  {
    if v != [] {
      var init := v[..|v| - 1];
      LeafCountCounts(init);
      assert LeafPositions(init) == LeafPositions(v) - {|v| - 1};
      if IsLeaf(v[|v| - 1]) {
        assert LeafPositions(v) == LeafPositions(init) + {|v| - 1};
      } else {
        assert LeafPositions(v) == LeafPositions(init);
      }
    }
  }

  /** `r` is a run of consecutive point ids of `v` whose nodes are all inner nodes except the last,
      which is a leaf. */
  predicate Run(v: seq<Compartment>, r: seq<int>)
  {
    && |r| > 0 && 0 <= r[0] && r[0] + |r| <= |v|
    && (forall i :: 0 <= i < |r| ==> r[i] == r[0] + i)
    && (forall i :: 0 <= i < |r| - 1 ==> !IsLeaf(v[r[i]]))
    && IsLeaf(v[r[|r| - 1]])
  }

  /** A branch cell: a run that starts at a root, or the point of the run's parent (the last point
      inserted for that id before the run) followed by a run that starts right after a leaf, so the
      run is the whole stretch since the previous cell closed. */
  predicate Branch(v: seq<Compartment>, c: seq<int>)
  {
    || (Run(v, c) && v[c[0]].parent == NoParent)
    || (&& |c| > 1 && Run(v, c[1..]) && v[c[1]].parent != NoParent
        && 0 < c[1] && IsLeaf(v[c[1] - 1])
        && 0 <= c[0] < c[1] && v[c[0]].id == v[c[1]].parent
        && (forall j :: c[0] < j < c[1] ==> v[j].id != v[c[1]].parent))
  }

  /** Every child id names a compartment of the map (no dangling child). */
  ghost predicate ChildrenPresent(cs: map<int, Compartment>)
  {
    forall k, j :: k in cs && 0 <= j < |cs[k].children| ==> cs[k].children[j] in cs
  }

  lemma {:induction false} LeafCountConcat(a: seq<Compartment>, b: seq<Compartment>)
    ensures LeafCount(a + b) == LeafCount(a) + LeafCount(b)
    decreases |b|
  {
    if b == [] {
      assert a + b == a;
    } else {
      var init := b[..|b| - 1];
      assert (a + b)[..|a + b| - 1] == a + init;
      assert (a + b)[|a + b| - 1] == b[|b| - 1];
      LeafCountConcat(a, init);
      assert LeafCount(b) == LeafCount(init) + (if IsLeaf(b[|b| - 1]) then 1 else 0);
      assert LeafCount(a + b) == LeafCount(a + init) + (if IsLeaf(b[|b| - 1]) then 1 else 0);
    }
  }

  /** Points a .. b - 1 of `v` are inner nodes except the last, which is a leaf. */
  predicate LeafRun(v: seq<Compartment>, a: int, b: int)
  {
    && 0 <= a < b <= |v|
    && (forall j :: a <= j < b - 1 ==> !IsLeaf(v[j]))
    && IsLeaf(v[b - 1])
  }

  /** The points of the run from s that ends at leaf e are inner nodes except the last. */
  lemma RunOfLeaf(before: seq<Compartment>, nodes: seq<Compartment>, s: int, e: int)
    requires 0 <= s <= e < |nodes| && IsLeaf(nodes[e]) && forall j :: s <= j < e ==> !IsLeaf(nodes[j])
    ensures LeafRun(before + nodes, |before| + s, |before| + e + 1)
    ensures (before + nodes)[|before| + s] == nodes[s]
    ensures s > 0 ==> (before + nodes)[|before| + s - 1] == nodes[s - 1]
  {
    var v := before + nodes;
    forall j | |before| + s <= j < |before| + e ensures !IsLeaf(v[j]) {
      assert v[j] == nodes[j - |before|];
    }
    assert v[|before| + e] == nodes[e];
  }

  /** Consecutive points a .. b - 1 ending at the first leaf from a form a run. */
  lemma RangeRun(v: seq<Compartment>, a: int, b: int)
    requires LeafRun(v, a, b)
    ensures Run(v, Range(a, b)) && Range(a, b)[0] == a
  {
  }

  /** A run whose first node has no parent is a branch. */
  lemma RootBranch(v: seq<Compartment>, a: int, b: int, c: seq<int>)
    requires LeafRun(v, a, b) && c == Range(a, b) && v[a].parent == NoParent
    ensures Branch(v, c)
  {
    RangeRun(v, a, b);
  }

  /** A run whose first node has a parent, preceded by the parent's point, is a branch. */
  lemma StitchedBranch(v: seq<Compartment>, a: int, b: int, w: seq<Compartment>, id: int, p: int, c: seq<int>)
    requires LeafRun(v, a, b) && w == v[..a] && c == [p] + Range(a, b)
    requires v[a].parent == id && id != NoParent && 0 <= p && p == LastIndexOfId(w, id)
    requires a > 0 && IsLeaf(v[a - 1])
    ensures Branch(v, c)
  {
    RangeRun(v, a, b);
    assert ([p] + Range(a, b))[1..] == Range(a, b);
    assert v[p] == w[p];
    forall j | p < j < a ensures v[j].id != v[a].parent {
      assert v[j] == w[j];
    }
  }

  /** The cell of a run whose first node has a parent starts with the parent's point. */
  lemma CellAtStitched(before: seq<Compartment>, nodes: seq<Compartment>, s: int, e: int)
    requires 0 <= s <= e < |nodes| && nodes[s].parent != NoParent
    ensures CellAt(before, nodes, s, e) ==
      [LastIndexOfId(before + nodes[..s], nodes[s].parent)] + Range(|before| + s, |before| + e + 1)
  {
  }

  /** The cell of a run whose first node has no parent is the run itself. */
  lemma CellAtRoot(before: seq<Compartment>, nodes: seq<Compartment>, s: int, e: int)
    requires 0 <= s <= e < |nodes| && nodes[s].parent == NoParent
    ensures CellAt(before, nodes, s, e) == Range(|before| + s, |before| + e + 1)
  {
  }

  lemma PrefixOfConcat<T>(a: seq<T>, b: seq<T>, s: int)
    requires 0 <= s <= |b|
    ensures (a + b)[..|a| + s] == a + b[..s]
  {
  }

  /** The cell closed at leaf e, when its run (from s) starts at a root, is a branch. */
  lemma RootCellIsBranch(before: seq<Compartment>, nodes: seq<Compartment>, s: int, e: int)
    requires 0 <= s <= e < |nodes| && IsLeaf(nodes[e]) && forall j :: s <= j < e ==> !IsLeaf(nodes[j])
    requires nodes[s].parent == NoParent
    ensures Branch(before + nodes, CellAt(before, nodes, s, e))
  {
    CellAtRoot(before, nodes, s, e);
    RootRunIsBranch(before, nodes, s, e);
  }

  /** The points of a run that starts at a root form a branch. */
  lemma RootRunIsBranch(before: seq<Compartment>, nodes: seq<Compartment>, s: int, e: int)
    requires 0 <= s <= e < |nodes| && IsLeaf(nodes[e]) && forall j :: s <= j < e ==> !IsLeaf(nodes[j])
    requires nodes[s].parent == NoParent
    ensures Branch(before + nodes, Range(|before| + s, |before| + e + 1))
  {
    var v, a, b := before + nodes, |before| + s, |before| + e + 1;
    RunOfLeaf(before, nodes, s, e);
    assert LeafRun(v, a, b) && v[a].parent == NoParent;
    RootBranch(v, a, b, Range(a, b));
  }

  /** The cell closed at leaf e, when its run (from s) starts below a parent, is a branch. */
  lemma StitchedCellIsBranch(before: seq<Compartment>, nodes: seq<Compartment>, s: int, e: int)
    requires 0 <= e < |nodes| && IsLeaf(nodes[e]) && s == RunStart(nodes, e)
    requires 0 < s && nodes[s].parent != NoParent
    requires LastIndexOfId(before + nodes[..s], nodes[s].parent) >= |before|
    ensures Branch(before + nodes, CellAt(before, nodes, s, e))
  {
    var v, a, b := before + nodes, |before| + s, |before| + e + 1;
    var w, id := before + nodes[..s], nodes[s].parent;
    StitchedCellShape(before, nodes, s, e, v, a, b, w, id);
    StitchedBranch(v, a, b, w, id, LastIndexOfId(w, id), CellAt(before, nodes, s, e));
  }

  /** The facts about a stitched cell that make it a branch, gathered apart from the goal. */
  lemma StitchedCellShape(before: seq<Compartment>, nodes: seq<Compartment>, s: int, e: int,
                          v: seq<Compartment>, a: int, b: int, w: seq<Compartment>, id: int)
    requires 0 <= e < |nodes| && IsLeaf(nodes[e]) && s == RunStart(nodes, e)
    requires 0 < s && nodes[s].parent == id && id != NoParent
    requires v == before + nodes && a == |before| + s && b == |before| + e + 1 && w == before + nodes[..s]
    ensures LeafRun(v, a, b) && w == v[..a] && v[a].parent == id && a > 0 && IsLeaf(v[a - 1])
    ensures CellAt(before, nodes, s, e) == [LastIndexOfId(w, id)] + Range(a, b)
  {
    RunOfLeaf(before, nodes, s, e);
    CellAtStitched(before, nodes, s, e);
    PrefixOfConcat(before, nodes, s);
  }

  /** A run whose first node has a parent is not the tree's first run, so a leaf precedes it. */
  lemma StitchedRunAfterLeaf(nodes: seq<Compartment>, s: int, e: int)
    requires 0 <= e < |nodes| && s == RunStart(nodes, e)
    requires nodes[0].parent == NoParent && nodes[s].parent != NoParent
    ensures s > 0 && IsLeaf(nodes[s - 1])
  {
  }

  /** The cell closed at leaf e is a branch of the tree's points. */
  lemma CellIsBranch(before: seq<Compartment>, nodes: seq<Compartment>, e: int)
    requires ParentsEarlier(nodes)
    requires 0 <= e < |nodes| && IsLeaf(nodes[e])
    ensures Branch(before + nodes, CellAt(before, nodes, RunStart(nodes, e), e))
  {
    if nodes[RunStart(nodes, e)].parent == NoParent {
      RootCellIsBranch(before, nodes, RunStart(nodes, e), e);
    } else {
      StitchFound(before, nodes, RunStart(nodes, e));
      StitchedRunAfterLeaf(nodes, RunStart(nodes, e), e);
      StitchedCellIsBranch(before, nodes, RunStart(nodes, e), e);
    }
  }

  /** The cells of one tree: one per leaf, each a branch of the tree's points. */
  lemma {:induction false} CellsAreBranches(before: seq<Compartment>, nodes: seq<Compartment>, n: int)
    requires ParentsEarlier(nodes) && 0 <= n <= |nodes|
    ensures |Cells(before, nodes, n)| == LeafCount(nodes[..n])
    ensures forall k :: 0 <= k < |Cells(before, nodes, n)| ==> Branch(before + nodes, Cells(before, nodes, n)[k])
    decreases n
  {
    if n > 0 {
      CellsAreBranches(before, nodes, n - 1);
      PrefixSnoc(nodes, n - 1);
      if IsLeaf(nodes[n - 1]) {
        CellIsBranch(before, nodes, n - 1);
      }
    }
  }

  /** A branch of some points stays a branch when more points follow. */
  lemma BranchExtend(v: seq<Compartment>, w: seq<Compartment>, c: seq<int>)
    requires Branch(v, c)
    ensures Branch(v + w, c)
  {
    if !(Run(v, c) && v[c[0]].parent == NoParent) {
      assert (v + w)[c[1] - 1] == v[c[1] - 1];
      forall j | c[0] < j < c[1] ensures (v + w)[j].id != (v + w)[c[1]].parent {
        assert (v + w)[j] == v[j];
      }
    }
  }

  /** The earlier trees' branches followed by a new tree's branches are all branches. */
  lemma BranchesConcat(v: seq<Compartment>, w: seq<Compartment>, c0: seq<seq<int>>, c1: seq<seq<int>>)
    requires forall k :: 0 <= k < |c0| ==> Branch(v, c0[k])
    requires forall k :: 0 <= k < |c1| ==> Branch(v + w, c1[k])
    ensures forall k :: 0 <= k < |c0 + c1| ==> Branch(v + w, (c0 + c1)[k])
  {
    forall k | 0 <= k < |c0 + c1| ensures Branch(v + w, (c0 + c1)[k]) {
      if k < |c0| {
        BranchExtend(v, w, c0[k]);
      } else {
        assert (c0 + c1)[k] == c1[k - |c0|];
      }
    }
  }

  /** The whole cell array: exactly one cell per visited leaf, each cell a branch of the visited
      points, so every index in it is a valid point id. Cell ends strictly increase, and each ends
      at a leaf, so with as many cells as leaves cell k ends at the k-th visited leaf. */
  lemma PolylinesAreBranches(cs: map<int, Compartment>, rank: int -> nat, roots: seq<Compartment>)
    requires Forest(cs, rank)
    requires forall i :: 0 <= i < |roots| ==> Member(cs, roots[i]) && roots[i].parent == NoParent
    ensures var v := Visit(cs, rank, roots); var ls := Polylines(cs, rank, roots);
      && |ls| == LeafCount(v)
      && (forall k :: 0 <= k < |ls| ==> Branch(v, ls[k]))
      && EndsIncrease(ls)
  {
    PolylinesCountBranches(cs, rank, roots);
    PolylineEnds(cs, rank, roots);
  }

  /** One cell per visited leaf, each a branch of the visited points. */
  lemma {:induction false} PolylinesCountBranches(cs: map<int, Compartment>, rank: int -> nat, roots: seq<Compartment>)
    requires Forest(cs, rank)
    requires forall i :: 0 <= i < |roots| ==> Member(cs, roots[i]) && roots[i].parent == NoParent
    ensures var v := Visit(cs, rank, roots); var ls := Polylines(cs, rank, roots);
      && |ls| == LeafCount(v)
      && (forall k :: 0 <= k < |ls| ==> Branch(v, ls[k]))
    decreases |roots|
  {
    if roots != [] {
      var init := roots[..|roots| - 1];
      var root := roots[|roots| - 1];
      var before, nodes := Visit(cs, rank, init), Preorder(cs, rank, root);
      var c0, c1 := Polylines(cs, rank, init), Cells(before, nodes, |nodes|);
      PolylinesCountBranches(cs, rank, init);
      TreeParentsEarlier(cs, rank, root);
      CellsAreBranches(before, nodes, |nodes|);
      assert nodes[..|nodes|] == nodes;
      LeafCountConcat(before, nodes);
      assert Visit(cs, rank, roots) == before + nodes;
      assert Polylines(cs, rank, roots) == c0 + c1;
      BranchesConcat(before, nodes, c0, c1);
    }
  }

  /** Every cell is non-empty and ends at a point in [lo, hi). */
  ghost predicate EndsWithin(ls: seq<seq<int>>, lo: int, hi: int)
  {
    forall k :: 0 <= k < |ls| ==> |ls[k]| > 0 && lo <= ls[k][|ls[k]| - 1] < hi
  }

  /** Each cell ends at a later point than the cells before it. */
  ghost predicate EndsIncrease(ls: seq<seq<int>>)
  {
    forall k, k' :: 0 <= k < k' < |ls| && |ls[k]| > 0 && |ls[k']| > 0 ==> ls[k][|ls[k]| - 1] < ls[k'][|ls[k']| - 1]
  }

  /** The cell closed at leaf e ends with e's point. */
  lemma CellAtEnd(before: seq<Compartment>, nodes: seq<Compartment>, s: int, e: int)
    requires 0 <= s <= e < |nodes|
    ensures var c := CellAt(before, nodes, s, e); |c| > 0 && c[|c| - 1] == |before| + e
  {
    var r := Range(|before| + s, |before| + e + 1);
    assert CellAt(before, nodes, s, e)[|CellAt(before, nodes, s, e)| - 1] == r[|r| - 1];
  }

  /** The cells of one tree end at that tree's points, in increasing order. */
  lemma {:induction false} CellEnds(before: seq<Compartment>, nodes: seq<Compartment>, n: int)
    requires 0 <= n <= |nodes|
    ensures EndsWithin(Cells(before, nodes, n), |before|, |before| + n)
    ensures EndsIncrease(Cells(before, nodes, n))
    decreases n
  {
    if n > 0 {
      CellEnds(before, nodes, n - 1);
      if IsLeaf(nodes[n - 1]) {
        var c0 := Cells(before, nodes, n - 1);
        var c := CellAt(before, nodes, RunStart(nodes, n - 1), n - 1);
        CellAtEnd(before, nodes, RunStart(nodes, n - 1), n - 1);
        EndsConcat(c0, [c], |before|, |before| + n - 1, |before| + n);
      }
    }
  }

  /** Cells ending below m followed by cells ending at m or later keep their ends increasing. */
  lemma EndsConcat(a: seq<seq<int>>, b: seq<seq<int>>, lo: int, m: int, hi: int)
    requires lo <= m <= hi
    requires EndsWithin(a, lo, m) && EndsIncrease(a)
    requires EndsWithin(b, m, hi) && EndsIncrease(b)
    ensures EndsWithin(a + b, lo, hi) && EndsIncrease(a + b)
  {
    forall k | 0 <= k < |a + b|
      ensures |(a + b)[k]| > 0 && lo <= (a + b)[k][|(a + b)[k]| - 1] < hi
    {
      if k < |a| { assert (a + b)[k] == a[k]; } else { assert (a + b)[k] == b[k - |a|]; }
    }
    forall k, k' | 0 <= k < k' < |a + b| && |(a + b)[k]| > 0 && |(a + b)[k']| > 0
      ensures (a + b)[k][|(a + b)[k]| - 1] < (a + b)[k'][|(a + b)[k']| - 1]
    {
      if k' < |a| {
        assert (a + b)[k] == a[k] && (a + b)[k'] == a[k'];
      } else if k < |a| {
        assert (a + b)[k] == a[k] && (a + b)[k'] == b[k' - |a|];
      } else {
        assert (a + b)[k] == b[k - |a|] && (a + b)[k'] == b[k' - |a|];
      }
    }
  }

  /** The cell array of the forest: cells end at visited points, in increasing order. */
  lemma {:induction false} PolylineEnds(cs: map<int, Compartment>, rank: int -> nat, roots: seq<Compartment>)
    requires Forest(cs, rank)
    requires forall i :: 0 <= i < |roots| ==> Member(cs, roots[i])
    ensures EndsWithin(Polylines(cs, rank, roots), 0, |Visit(cs, rank, roots)|)
    ensures EndsIncrease(Polylines(cs, rank, roots))
    decreases |roots|
  {
    if roots != [] {
      var init := roots[..|roots| - 1];
      var before, nodes := Visit(cs, rank, init), Preorder(cs, rank, roots[|roots| - 1]);
      PolylineEnds(cs, rank, init);
      CellEnds(before, nodes, |nodes|);
      assert Visit(cs, rank, roots) == before + nodes;
      EndsConcat(Polylines(cs, rank, init), Cells(before, nodes, |nodes|), 0, |before|, |before| + |nodes|);
    }
  }

  /** Every index of a branch is a point id, and the branch ends at a leaf. */
  lemma BranchBounds(v: seq<Compartment>, c: seq<int>)
    requires Branch(v, c)
    ensures |c| > 0 && IsLeaf(v[c[|c| - 1]])
    ensures forall i :: 0 <= i < |c| ==> 0 <= c[i] < |v|
  {
    if !(Run(v, c) && v[c[0]].parent == NoParent) {
      assert c[1..][|c| - 2] == c[|c| - 1];
      forall i | 1 <= i < |c| ensures 0 <= c[i] < |v| {
        assert c[i] == c[1..][i - 1];
      }
    }
  }

  /** With no dangling child ids, an inner node's last present child is its last listed child, and
      it names the node as its parent. */
  lemma LastKidIsChild(cs: map<int, Compartment>, rank: int -> nat, n: Compartment)
    requires Forest(cs, rank) && Member(cs, n) && ChildrenPresent(cs) && !IsLeaf(n)
    ensures var kids := PresentChildren(cs, n.children); kids != [] && kids[|kids| - 1].parent == n.id
  {
    var ids := n.children;
    var kids := PresentChildren(cs, ids);
    assert ids[|ids| - 1] in cs;
    assert kids[|kids| - 1] == cs[ids[|ids| - 1]];
    assert cs[n.id].children[|ids| - 1] == ids[|ids| - 1];
  }

  /** With no dangling child ids, an inner node of a tree is followed by its last child. */
  lemma InnerNodeFollowedByChild(cs: map<int, Compartment>, rank: int -> nat, root: Compartment, j: int)
    requires Forest(cs, rank) && Member(cs, root) && ChildrenPresent(cs)
    requires 0 <= j < |Preorder(cs, rank, root)| && !IsLeaf(Preorder(cs, rank, root)[j])
    ensures var p := Preorder(cs, rank, root); j + 1 < |p| && p[j + 1].parent == p[j].id
  {
    var p := Preorder(cs, rank, root);
    PreorderLastChildNext(cs, rank, root);
    assert FollowsAt(cs, p, j);
    LastKidIsChild(cs, rank, p[j]);
  }

  /** Every inner node of `v` is followed by one of its children. */
  ghost predicate InnerFollowedByChild(v: seq<Compartment>)
  {
    forall j :: 0 <= j < |v| && !IsLeaf(v[j]) ==> j + 1 < |v| && v[j + 1].parent == v[j].id
  }

  /** The same across the roots: an inner visited node is followed by one of its children. */
  lemma {:induction false} VisitInnerFollowedByChild(cs: map<int, Compartment>, rank: int -> nat,
                                                     roots: seq<Compartment>)
    requires Forest(cs, rank) && ChildrenPresent(cs)
    requires forall i :: 0 <= i < |roots| ==> Member(cs, roots[i])
    ensures InnerFollowedByChild(Visit(cs, rank, roots))
    decreases |roots|
  {
    if roots != [] {
      var init := roots[..|roots| - 1];
      var a, b := Visit(cs, rank, init), Preorder(cs, rank, roots[|roots| - 1]);
      VisitInnerFollowedByChild(cs, rank, init);
      assert Visit(cs, rank, roots) == a + b;
      forall j | 0 <= j < |a + b| && !IsLeaf((a + b)[j])
        ensures j + 1 < |a + b| && (a + b)[j + 1].parent == (a + b)[j].id
      {
        if j < |a| {
          assert (a + b)[j] == a[j] && (a + b)[j + 1] == a[j + 1];
        } else {
          assert (a + b)[j] == b[j - |a|];
          InnerNodeFollowedByChild(cs, rank, roots[|roots| - 1], j - |a|);
          assert (a + b)[j + 1] == b[j - |a| + 1];
        }
      }
    }
  }

  /** Each step of the cell `c` goes from a point to the point of one of its children. */
  ghost predicate StepsFollowTree(v: seq<Compartment>, c: seq<int>)
  {
    forall i, j :: 0 <= i < j < |c| && j == i + 1 ==>
      0 <= c[i] < |v| && 0 <= c[j] < |v| && v[c[j]].parent == v[c[i]].id
  }

  /** With no dangling child ids every cell follows the tree. */
  lemma PolylinesFollowTree(cs: map<int, Compartment>, rank: int -> nat, roots: seq<Compartment>)
    requires Forest(cs, rank) && ChildrenPresent(cs)
    requires forall i :: 0 <= i < |roots| ==> Member(cs, roots[i]) && roots[i].parent == NoParent
    ensures var v := Visit(cs, rank, roots); var ls := Polylines(cs, rank, roots);
      forall k :: 0 <= k < |ls| ==> StepsFollowTree(v, ls[k])
  {
    var v := Visit(cs, rank, roots);
    var ls := Polylines(cs, rank, roots);
    PolylinesAreBranches(cs, rank, roots);
    VisitInnerFollowedByChild(cs, rank, roots);
    forall k | 0 <= k < |ls| ensures StepsFollowTree(v, ls[k]) {
      BranchSteps(v, ls[k]);
    }
  }

  /** A branch follows the tree when every inner node is followed by a child. */
  lemma BranchSteps(v: seq<Compartment>, c: seq<int>)
    requires InnerFollowedByChild(v) && Branch(v, c)
    ensures StepsFollowTree(v, c)
  {
    BranchBounds(v, c);
    if Run(v, c) && v[c[0]].parent == NoParent {
      forall i, j | 0 <= i < j < |c| && j == i + 1
        ensures 0 <= c[i] < |v| && 0 <= c[j] < |v| && v[c[j]].parent == v[c[i]].id
      {
        assert !IsLeaf(v[c[i]]);
      }
    } else {
      var r := c[1..];
      forall i, j | 0 <= i < j < |c| && j == i + 1
        ensures 0 <= c[i] < |v| && 0 <= c[j] < |v| && v[c[j]].parent == v[c[i]].id
      {
        if i > 0 {
          assert c[i] == r[i - 1] && c[j] == r[i];
          assert !IsLeaf(v[r[i - 1]]);
        }
      }
    }
  }

  /** A childless node alone in its tree closes one cell holding just its own point. */
  lemma SingleLeafCell(root: Compartment)
    requires root.parent == NoParent && IsLeaf(root)
    ensures Cells([], [root], 1) == [[0]]
  {
    assert RunStart([root], 0) == 0;
    CellAtRoot([], [root], 0, 0);
    assert Range(0, 1) == [0];
  }

  /** A map holding just one childless root is a forest whose only tree is that root. */
  lemma LoneForest(cs: map<int, Compartment>, root: Compartment, rank: int -> nat)
    requires cs == map[root.id := root] && root.parent == NoParent && root.children == []
    ensures Forest(cs, rank) && Member(cs, root)
    ensures Preorder(cs, rank, root) == [root]
  {
    assert PresentChildren(cs, root.children) == [];
  }

  /** A lone childless root yields one point and a single one-point cell. */
  lemma LoneRoot(cs: map<int, Compartment>, root: Compartment, rank: int -> nat)
    requires cs == map[root.id := root] && root.parent == NoParent && root.children == []
    ensures Forest(cs, rank)
    ensures Roots(cs, [root.id]) == [root]
    ensures Visit(cs, rank, [root]) == [root]
    ensures Polylines(cs, rank, [root]) == [[0]]
  {
    LoneForest(cs, root, rank);
    assert [root][..0] == [];
    assert [root.id][..0] == [];
    assert Visit(cs, rank, []) == [];
    SingleLeafCell(root);
  }
}
