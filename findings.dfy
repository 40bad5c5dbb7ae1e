/** A child id with no record. The walk in vtkmorph.py skips it, but the leaf test still counts it,
    so the node naming it closes no cell. The next cell then runs on from that node into a node
    that is not its child. Below: the example that shows this, and the intended assembly, where a
    leaf is a node with no present child. */
module Findings {
  import opened Morphology
  import opened Traversal
  import opened PolyData
  import opened Branches

  /** A rank for the example map: the root above its two children. */
  function DanglingRank(k: int): nat
  {
    if k == 1 then 1 else 0
  }

  /** The example map: root 1 has children 2 and 3, and 3 lists the absent id 99. */
  const DanglingRoot := Compartment(1, NoParent, [2, 3], 0.0, 0.0, 0.0, 1.0, 1)
  const LeafChild := Compartment(2, 1, [], 1.0, 0.0, 0.0, 0.5, 3)
  const DanglingParent := Compartment(3, 1, [99], 0.0, 1.0, 0.0, 0.5, 3)
  const DanglingMap := map[1 := DanglingRoot, 2 := LeafChild, 3 := DanglingParent]

  lemma DanglingForest()
    ensures Forest(DanglingMap, DanglingRank)
    ensures Roots(DanglingMap, [1, 2, 3]) == [DanglingRoot]
  {
    var cs := DanglingMap;
    assert [1, 2, 3][..2] == [1, 2] && [1, 2][..1] == [1] && [1][..0] == [];
    assert Roots(cs, [1]) == [DanglingRoot];
    assert Roots(cs, [1, 2]) == [DanglingRoot];
  }

  /** The walk visits 1, then 3 (the last listed child), then 2. */
  lemma DanglingVisit()
    ensures Forest(DanglingMap, DanglingRank)
    ensures Preorder(DanglingMap, DanglingRank, DanglingRoot) == [DanglingRoot, DanglingParent, LeafChild]
    ensures Visit(DanglingMap, DanglingRank, [DanglingRoot]) == [DanglingRoot, DanglingParent, LeafChild]
  {
    DanglingForest();
    var cs, rank, a, b := DanglingMap, DanglingRank, LeafChild, DanglingParent;
    assert PresentChildren(cs, [99]) == [] by { assert [99][..0] == []; }
    assert PresentChildren(cs, [2, 3]) == [a, b] by { assert [2, 3][..1] == [2] && [2][..0] == []; }
    assert Preorder(cs, rank, a) == [a];
    assert Preorder(cs, rank, b) == [b];
    assert [a, b][..1] == [a] && [a][..0] == [];
    assert Pending(cs, rank, [a]) == [a];
    assert Pending(cs, rank, [a, b]) == [b, a];
    assert Preorder(cs, rank, DanglingRoot) == [DanglingRoot, b, a];
    assert [DanglingRoot][..0] == [];
  }

  /** Node 3 names a child, so it is no leaf: the walk closes one cell, at node 2. */
  lemma DanglingCells()
    ensures Cells([], [DanglingRoot, DanglingParent, LeafChild], 3) == [[0, 1, 2]]
  {
    var v := [DanglingRoot, DanglingParent, LeafChild];
    assert !IsLeaf(v[0]) && !IsLeaf(v[1]) && IsLeaf(v[2]);
    assert RunStart(v, 1) == 0;
    assert RunStart(v, 2) == 0;
    assert Cells([], v, 1) == [];
    assert Cells([], v, 2) == [];
    assert CellAt([], v, 0, 2) == [0, 1, 2];
  }

  /** As written: the only cell is [0, 1, 2]. Its last step goes from node 3 to node 2, and node 2
      is a child of 1, not of 3. */
  lemma DanglingChildBreaksCell()
    ensures Forest(DanglingMap, DanglingRank)
    ensures Roots(DanglingMap, [1, 2, 3]) == [DanglingRoot]
    ensures Visit(DanglingMap, DanglingRank, [DanglingRoot]) == [DanglingRoot, DanglingParent, LeafChild]
    ensures Polylines(DanglingMap, DanglingRank, [DanglingRoot]) == [[0, 1, 2]]
    ensures !StepsFollowTree([DanglingRoot, DanglingParent, LeafChild], [0, 1, 2])
  {
    DanglingForest();
    DanglingVisit();
    DanglingCells();
    var v := [DanglingRoot, DanglingParent, LeafChild];
    assert [DanglingRoot][..0] == [];
    assert Visit(DanglingMap, DanglingRank, []) == [] && Polylines(DanglingMap, DanglingRank, []) == [];
    var c := [0, 1, 2];
    assert c[1] == 1 && c[2] == 2 && v[c[2]].parent != v[c[1]].id;
  }

  /** The ids of `ids` that name a record of the map, in list order. */
  function PresentIds(cs: map<int, Compartment>, ids: seq<int>): (r: seq<int>)
    requires forall k :: k in cs ==> cs[k].id == k
    ensures |r| == |PresentChildren(cs, ids)|
    ensures forall i :: 0 <= i < |r| ==> r[i] in cs && r[i] == PresentChildren(cs, ids)[i].id
  {
    if ids == [] then []
    else
      var last := ids[|ids| - 1];
      PresentIds(cs, ids[..|ids| - 1]) + (if last in cs then [last] else [])
  }

  /** A record whose children list keeps only the ids the map holds. */
  function PruneNode(cs: map<int, Compartment>, n: Compartment): Compartment
    requires forall k :: k in cs ==> cs[k].id == k
  {
    Compartment(n.id, n.parent, PresentIds(cs, n.children), n.x, n.y, n.z, n.radius, n.kind)
  }

  /** The map with every children list cut down to the ids it holds. */
  function Prune(cs: map<int, Compartment>): (p: map<int, Compartment>)
    requires forall k :: k in cs ==> cs[k].id == k
  {
    map k | k in cs :: PruneNode(cs, cs[k])
  }

  /** Pruning keeps the forest and every record's point, radius, type and parent, leaves no
      dangling child, and makes a node a leaf exactly when it has no present child. */
  lemma PruneForest(cs: map<int, Compartment>, rank: int -> nat)
    requires Forest(cs, rank)
    ensures Forest(Prune(cs), rank) && ChildrenPresent(Prune(cs))
    ensures Prune(cs).Keys == cs.Keys
    ensures forall k :: k in cs ==>
      var n := cs[k]; var m := Prune(cs)[k];
      && m.id == n.id && m.parent == n.parent && m.kind == n.kind && m.radius == n.radius
      && m.x == n.x && m.y == n.y && m.z == n.z
      && (IsLeaf(m) <==> PresentChildren(cs, n.children) == [])
  {
    var p := Prune(cs);
    forall k, j | k in p && 0 <= j < |p[k].children| && p[k].children[j] in p
      ensures rank(p[k].children[j]) < rank(k) && p[p[k].children[j]].parent == k
    {
      var kids := PresentChildren(cs, cs[k].children);
      assert p[k].children[j] == kids[j].id;
      ChildLink(cs, rank, cs[k], kids[j]);
    }
  }

  /** The example map after pruning: only node 3's children list changes, to empty. */
  lemma PrunedDanglingMap()
    ensures Forest(Prune(DanglingMap), DanglingRank)
    ensures Prune(DanglingMap) == map[1 := DanglingRoot, 2 := LeafChild, 3 := Compartment(3, 1, [], 0.0, 1.0, 0.0, 0.5, 3)]
  {
    DanglingForest();
    PruneForest(DanglingMap, DanglingRank);
    assert PresentIds(DanglingMap, []) == [];
    assert PresentIds(DanglingMap, [99]) == [] by { assert [99][..0] == []; }
    assert PresentIds(DanglingMap, [2, 3]) == [2, 3] by { assert [2, 3][..1] == [2] && [2][..0] == []; }
  }

  /** Intended, on the example: with 99 pruned, node 3 is a leaf and closes its own cell [0, 1];
      node 2 then starts a cell stitched to its parent's point, [0, 2]. */
  lemma PrunedDanglingCells()
    ensures Forest(Prune(DanglingMap), DanglingRank)
    ensures Member(Prune(DanglingMap), DanglingRoot)
    ensures Polylines(Prune(DanglingMap), DanglingRank, [DanglingRoot]) == [[0, 1], [0, 2]]
  {
    PrunedDanglingMap();
    var cs, rank := Prune(DanglingMap), DanglingRank;
    var a, b := LeafChild, Compartment(3, 1, [], 0.0, 1.0, 0.0, 0.5, 3);
    PrunedDanglingWalk(cs, rank, a, b);
    PrunedDanglingSplit(a, b);
    assert [DanglingRoot][..0] == [];
    assert Visit(cs, rank, []) == [] && Polylines(cs, rank, []) == [];
  }

  /** The pruned walk visits 1, 3, 2, as before. */
  lemma PrunedDanglingWalk(cs: map<int, Compartment>, rank: int -> nat, a: Compartment, b: Compartment)
    requires cs == map[1 := DanglingRoot, 2 := a, 3 := b] && Forest(cs, rank)
    requires a.id == 2 && a.parent == 1 && a.children == []
    requires b.id == 3 && b.parent == 1 && b.children == []
    ensures Member(cs, DanglingRoot) && Preorder(cs, rank, DanglingRoot) == [DanglingRoot, b, a]
  {
    assert PresentChildren(cs, []) == [];
    assert PresentChildren(cs, [2, 3]) == [a, b] by { assert [2, 3][..1] == [2] && [2][..0] == []; }
    assert Preorder(cs, rank, a) == [a];
    assert Preorder(cs, rank, b) == [b];
    assert [a, b][..1] == [a] && [a][..0] == [];
    assert Pending(cs, rank, [a]) == [a];
    assert Pending(cs, rank, [a, b]) == [b, a];
  }

  /** The cells of the pruned walk 1, 3, 2, where 3 and 2 are both leaves. */
  lemma PrunedDanglingSplit(a: Compartment, b: Compartment)
    requires a.id == 2 && a.parent == 1 && a.children == []
    requires b.id == 3 && b.parent == 1 && b.children == []
    ensures Cells([], [DanglingRoot, b, a], 3) == [[0, 1], [0, 2]]
  {
    var v := [DanglingRoot, b, a];
    assert !IsLeaf(v[0]) && IsLeaf(v[1]) && IsLeaf(v[2]);
    assert RunStart(v, 1) == 0 && RunStart(v, 2) == 2;
    assert Cells([], v, 1) == [];
    assert CellAt([], v, 0, 1) == [0, 1];
    assert Cells([], v, 2) == [[0, 1]];
    assert v[..2] == [DanglingRoot, b] && [DanglingRoot, b][..1] == [DanglingRoot];
    assert [] + v[..2] == v[..2];
    assert LastIndexOfId(v[..2], 1) == 0;
    assert Stitch([], v, 2) == [0];
    assert CellAt([], v, 2, 2) == [0, 2];
  }

  /** Every visited node is a record of the map. */
  lemma {:induction false} VisitMembers(cs: map<int, Compartment>, rank: int -> nat, roots: seq<Compartment>)
    requires Forest(cs, rank)
    requires forall i :: 0 <= i < |roots| ==> Member(cs, roots[i])
    ensures forall j :: 0 <= j < |Visit(cs, rank, roots)| ==> Member(cs, Visit(cs, rank, roots)[j])
    decreases |roots|
  {
    if roots != [] {
      var init := roots[..|roots| - 1];
      VisitMembers(cs, rank, init);
      var a, b := Visit(cs, rank, init), Preorder(cs, rank, roots[|roots| - 1]);
      forall j | 0 <= j < |a + b| ensures Member(cs, (a + b)[j]) {
        if j >= |a| { assert (a + b)[j] == b[j - |a|]; }
      }
    }
  }

  /** Each step of cell `c` goes from a point whose compartment id is that of the next point's
      parent in the map `cs`, given the point-to-compartment id array `ids`. */
  ghost predicate StepsFollowMap(cs: map<int, Compartment>, ids: seq<int>, c: seq<int>)
  {
    forall i, j :: 0 <= i < j < |c| && j == i + 1 ==>
      && 0 <= c[i] < |ids| && 0 <= c[j] < |ids|
      && ids[c[j]] in cs && cs[ids[c[j]]].parent == ids[c[i]]
  }

  /** The intended assembly: a leaf is a node with no present child. It runs the assembly on the
      pruned map. Then every step of every cell goes from a compartment to one of its children,
      and every cell ends at a compartment with no present child, whatever ids the children lists
      name. */
  method MorphologyPolydataPruned(cs: map<int, Compartment>, order: seq<int>, soma: Compartment,
                                  colorOf: Compartment -> Rgb, minRadius: real, ghost rank: int -> nat)
    returns (pd: PolyData)
    requires Forest(cs, rank)
    requires forall i :: 0 <= i < |order| ==> order[i] in cs
    requires forall k :: k in cs ==> k in order
    requires forall i, j :: 0 <= i < j < |order| ==> order[i] != order[j]
    ensures forall k :: 0 <= k < |pd.lines| ==> StepsFollowMap(cs, pd.compartmentIds, pd.lines[k])
    ensures forall k :: 0 <= k < |pd.lines| ==>
      && |pd.lines[k]| > 0 && 0 <= pd.lines[k][|pd.lines[k]| - 1] < |pd.compartmentIds|
      && pd.compartmentIds[pd.lines[k][|pd.lines[k]| - 1]] in cs
      && PresentChildren(cs, cs[pd.compartmentIds[pd.lines[k][|pd.lines[k]| - 1]]].children) == []
  {
    PruneForest(cs, rank);
    pd := MorphologyPolydata(Prune(cs), order, PruneNode(cs, soma), colorOf, minRadius, rank);
    PrunedCells(cs, rank, Roots(Prune(cs), order), pd.compartmentIds, pd.lines);
  }

  /** The cells of the pruned map, read through the compartment id of each point: every step goes
      from a parent to its child, and every cell ends at a node with no present child. */
  lemma PrunedCells(cs: map<int, Compartment>, rank: int -> nat, roots: seq<Compartment>,
                    ids: seq<int>, lines: seq<seq<int>>)
    requires Forest(cs, rank) && Forest(Prune(cs), rank)
    requires forall i :: 0 <= i < |roots| ==> Member(Prune(cs), roots[i]) && roots[i].parent == NoParent
    requires lines == Polylines(Prune(cs), rank, roots)
    requires |ids| == |Visit(Prune(cs), rank, roots)|
    requires forall j :: 0 <= j < |ids| ==> ids[j] == Visit(Prune(cs), rank, roots)[j].id
    ensures forall k :: 0 <= k < |lines| ==> StepsFollowMap(cs, ids, lines[k])
    ensures forall k :: 0 <= k < |lines| ==>
      && |lines[k]| > 0 && 0 <= lines[k][|lines[k]| - 1] < |ids|
      && ids[lines[k][|lines[k]| - 1]] in cs
      && PresentChildren(cs, cs[ids[lines[k][|lines[k]| - 1]]].children) == []
  {
    var p := Prune(cs);
    var v := Visit(p, rank, roots);
    PruneForest(cs, rank);
    PolylinesAreBranches(p, rank, roots);
    PolylinesFollowTree(p, rank, roots);
    VisitMembers(p, rank, roots);
    forall k | 0 <= k < |lines| ensures StepsFollowMap(cs, ids, lines[k]) {
      var c := lines[k];
      assert StepsFollowTree(v, c);
      forall i, j | 0 <= i < j < |c| && j == i + 1
        ensures && 0 <= c[i] < |ids| && 0 <= c[j] < |ids|
          && ids[c[j]] in cs && cs[ids[c[j]]].parent == ids[c[i]]
      {
        assert Member(p, v[c[j]]);
      }
    }
    forall k | 0 <= k < |lines|
      ensures && |lines[k]| > 0 && 0 <= lines[k][|lines[k]| - 1] < |ids|
        && ids[lines[k][|lines[k]| - 1]] in cs
        && PresentChildren(cs, cs[ids[lines[k][|lines[k]| - 1]]].children) == []
    {
      var c := lines[k];
      BranchBounds(v, c);
      assert Member(p, v[c[|c| - 1]]);
    }
  }
}
