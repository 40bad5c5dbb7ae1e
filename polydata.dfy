/** Polyline assembly (vtkmorph.py, morphology_polydata): one point per traversed compartment with
    parallel radius, type, colour and id arrays, and one polyline cell per leaf, each new branch
    stitched to the point of its parent. VTK's point, attribute and cell arrays are sequences. */
module PolyData {
  import opened Morphology
  import opened Traversal
  import opened Wrappers

  datatype Point3 = Point3(x: real, y: real, z: real)

  /** The point set and cell array the assembly hands to the tube filter. */
  datatype PolyData = PolyData(
    points: seq<Point3>,
    lines: seq<seq<int>>,
    radii: seq<real>,
    types: seq<int>,
    colors: seq<Rgb>,
    compartmentIds: seq<int>)

  function Position(n: Compartment): Point3
  {
    Point3(n.x, n.y, n.z)
  }

  /** The point ids a .. b - 1. */
  function Range(a: int, b: int): (r: seq<int>)
    requires a <= b
    ensures |r| == b - a && forall i :: 0 <= i < |r| ==> r[i] == a + i
  {
    seq(b - a, i => a + i)
  }

  /** The roots of the forest (parent -1), in the order `order` enumerates the map. */
  function Roots(cs: map<int, Compartment>, order: seq<int>): (r: seq<Compartment>)
    requires forall k :: k in cs ==> cs[k].id == k
    requires forall i :: 0 <= i < |order| ==> order[i] in cs
    ensures forall i :: 0 <= i < |r| ==> Member(cs, r[i]) && r[i].parent == NoParent
    ensures forall i :: 0 <= i < |order| && cs[order[i]].parent == NoParent ==> cs[order[i]] in r
    ensures |r| <= |order|
  {
    if order == [] then []
    else
      var init := order[..|order| - 1];
      var c := cs[order[|order| - 1]];
      Roots(cs, init) + (if c.parent == NoParent then [c] else [])
  }

  /** The roots found among the first i keys come first, and the i-th key, when it is a root, is
      the next root after them: the roots keep the order in which `order` lists them. */
  lemma {:induction false} RootsPrefix(cs: map<int, Compartment>, order: seq<int>, i: int)
    requires forall k :: k in cs ==> cs[k].id == k
    requires forall j :: 0 <= j < |order| ==> order[j] in cs
    requires 0 <= i < |order|
    ensures var p := Roots(cs, order[..i]); var r := Roots(cs, order);
      && p <= r
      && (cs[order[i]].parent == NoParent ==> |p| < |r| && r[|p|] == cs[order[i]])
    decreases |order|
  {
    var init := order[..|order| - 1];
    var c := cs[order[|order| - 1]];
    assert Roots(cs, order) == Roots(cs, init) + (if c.parent == NoParent then [c] else []);
    if i < |order| - 1 {
      RootsPrefix(cs, init, i);
      assert init[..i] == order[..i] && init[i] == order[i];
    } else {
      assert order[..i] == init;
    }
  }

  /** The nodes the assembly visits: the pre-order of each root, roots taken in order. */
  ghost function Visit(cs: map<int, Compartment>, rank: int -> nat, roots: seq<Compartment>): (v: seq<Compartment>)
    requires Forest(cs, rank)
    requires forall i :: 0 <= i < |roots| ==> Member(cs, roots[i])
  {
    if roots == [] then []
    else Visit(cs, rank, roots[..|roots| - 1]) + Preorder(cs, rank, roots[|roots| - 1])
  }

  /** The last position of a node with id `id`, -1 if there is none (what `pidmap` holds). */
  function LastIndexOfId(s: seq<Compartment>, id: int): (i: int)
    ensures -1 <= i < |s|
    ensures i >= 0 ==> s[i].id == id
    ensures forall j :: i < j < |s| ==> s[j].id != id
  {
    if s == [] then -1
    else if s[|s| - 1].id == id then |s| - 1
    else LastIndexOfId(s[..|s| - 1], id)
  }

  /** The last position holding exactly `n`, -1 if there is none (soma_pid). */
  function LastIndexOf(s: seq<Compartment>, n: Compartment): (i: int)
    ensures -1 <= i < |s|
    ensures i >= 0 ==> s[i] == n
    ensures forall j :: i < j < |s| ==> s[j] != n
  {
    if s == [] then -1
    else if s[|s| - 1] == n then |s| - 1
    else LastIndexOf(s[..|s| - 1], n)
  }

  /** The last position of a node whose parent is `pid`, -1 if there is none. */
  function LastIndexOfChild(s: seq<Compartment>, pid: int): (i: int)
    ensures -1 <= i < |s|
    ensures i >= 0 ==> s[i].parent == pid
    ensures forall j :: i < j < |s| ==> s[j].parent != pid
  {
    if s == [] then -1
    else if s[|s| - 1].parent == pid then |s| - 1
    else LastIndexOfChild(s[..|s| - 1], pid)
  }

  /** soma_radius: the raw radius of the last visited child of the soma, 0 if none was visited. */
  function SomaChildRadius(s: seq<Compartment>, soma: Compartment): real
  {
    var i := LastIndexOfChild(s, soma.id);
    if i >= 0 then s[i].radius else 0.0
  }

  /** Whether the final fix-up overwrites the soma's radius entry. */
  predicate SomaOverridden(s: seq<Compartment>, soma: Compartment)
  {
    SomaChildRadius(s, soma) > 0.0 && LastIndexOf(s, soma) >= 0
  }

  /** The radius entry of point `j` once assembly is done. */
  function StoredRadius(s: seq<Compartment>, soma: Compartment, minRadius: real, j: int): real
    requires 0 <= j < |s|
  {
    if SomaOverridden(s, soma) && j == LastIndexOf(s, soma) then SomaChildRadius(s, soma)
    else Max(s[j].radius, minRadius)
  }

  /** Every radius entry is the node's radius raised to at least minRadius, except the soma's entry
      when the fix-up fires: that one is the positive raw radius of the last visited child of the
      soma. */
  lemma StoredRadiusBound(s: seq<Compartment>, soma: Compartment, minRadius: real, j: int)
    requires 0 <= j < |s|
    ensures !(SomaOverridden(s, soma) && j == LastIndexOf(s, soma)) ==>
      StoredRadius(s, soma, minRadius, j) >= minRadius && StoredRadius(s, soma, minRadius, j) >= s[j].radius
    ensures SomaOverridden(s, soma) && j == LastIndexOf(s, soma) ==>
      && s[j] == soma
      && StoredRadius(s, soma, minRadius, j) > 0.0
      && var c := LastIndexOfChild(s, soma.id);
         0 <= c < |s| && s[c].parent == soma.id && StoredRadius(s, soma, minRadius, j) == s[c].radius
  {
  }

  /** A node whose children list is empty closes a polyline; ids missing from the map still count
      as children here. */
  predicate IsLeaf(n: Compartment)
  {
    |n.children| == 0
  }

  /** The position where the run of nodes containing position i starts: just after the last leaf
      before i, or 0. */
  function RunStart(nodes: seq<Compartment>, i: int): (s: int)
    requires 0 <= i <= |nodes|
    ensures 0 <= s <= i
    ensures forall j :: s <= j < i ==> !IsLeaf(nodes[j])
    ensures s > 0 ==> IsLeaf(nodes[s - 1])
  {
    if i == 0 then 0
    else if IsLeaf(nodes[i - 1]) then i
    else RunStart(nodes, i - 1)
  }

  /** The parent's point id the branch starting at nodes[s] is stitched to, if that node has a
      parent: the last point inserted for the parent id before it (what `pidmap` answers). */
  function Stitch(before: seq<Compartment>, nodes: seq<Compartment>, s: int): seq<int>
    requires 0 <= s < |nodes|
  {
    if nodes[s].parent != NoParent then [LastIndexOfId(before + nodes[..s], nodes[s].parent)] else []
  }

  /** The cell for the run nodes[s..e] of one tree whose first point is |before|. */
  function CellAt(before: seq<Compartment>, nodes: seq<Compartment>, s: int, e: int): seq<int>
    requires 0 <= s <= e < |nodes|
  {
    Stitch(before, nodes, s) + Range(|before| + s, |before| + e + 1)
  }

  /** The cells closed while the first n nodes of one tree are added: one per leaf, covering the run
      since the previous leaf. */
  function Cells(before: seq<Compartment>, nodes: seq<Compartment>, n: int): (c: seq<seq<int>>)
    requires 0 <= n <= |nodes|
  {
    if n == 0 then []
    else if IsLeaf(nodes[n - 1]) then Cells(before, nodes, n - 1) + [CellAt(before, nodes, RunStart(nodes, n - 1), n - 1)]
    else Cells(before, nodes, n - 1)
  }

  /** The cell array of the whole forest. */
  ghost function Polylines(cs: map<int, Compartment>, rank: int -> nat, roots: seq<Compartment>): seq<seq<int>>
    requires Forest(cs, rank)
    requires forall i :: 0 <= i < |roots| ==> Member(cs, roots[i])
  {
    if roots == [] then []
    else
      var init := roots[..|roots| - 1];
      var nodes := Preorder(cs, rank, roots[|roots| - 1]);
      Polylines(cs, rank, init) + Cells(Visit(cs, rank, init), nodes, |nodes|)
  }

  /** The open line after the first i nodes of a tree: the cell of the current run so far, or empty
      right after a leaf. */
  function OpenLine(before: seq<Compartment>, nodes: seq<Compartment>, i: int): seq<int>
    requires 0 <= i <= |nodes|
  {
    var s := RunStart(nodes, i);
    if s == i then [] else CellAt(before, nodes, s, i - 1)
  }

  /** Node j's parent id is the id of a node before it. */
  predicate ParentBefore(nodes: seq<Compartment>, j: int)
    requires 0 <= j < |nodes|
  {
    exists i :: 0 <= i < j && nodes[j].parent == nodes[i].id
  }

  /** The root of a tree has no parent and every later node has its parent earlier in the list. */
  predicate ParentsEarlier(nodes: seq<Compartment>)
  {
    && (|nodes| > 0 ==> nodes[0].parent == NoParent)
    && (forall j :: 0 < j < |nodes| ==> ParentBefore(nodes, j))
  }

  lemma TreeParentsEarlier(cs: map<int, Compartment>, rank: int -> nat, root: Compartment)
    requires Forest(cs, rank) && Member(cs, root) && root.parent == NoParent
    ensures ParentsEarlier(Preorder(cs, rank, root))
  {
    PreorderParents(cs, rank, root);
    var r := Preorder(cs, rank, root);
    forall j | 0 < j < |r| ensures ParentBefore(r, j) {
      assert PushedByParent(cs, r, j);
    }
  }

  /** The point data after inserting node `n`: InsertNextPoint and one tuple per attribute array. */
  function InsertPoint(pd: PolyData, n: Compartment, colorOf: Compartment -> Rgb, minRadius: real): PolyData
  {
    pd.(points := pd.points + [Position(n)],
        radii := pd.radii + [Max(n.radius, minRadius)],
        types := pd.types + [n.kind],
        colors := pd.colors + [colorOf(n)],
        compartmentIds := pd.compartmentIds + [n.id])
  }

  /** The point data (no cells yet) once the nodes `v` have been inserted in order. */
  function PointData(v: seq<Compartment>, colorOf: Compartment -> Rgb, minRadius: real): (pd: PolyData)
    ensures |pd.points| == |v| && |pd.radii| == |v| && |pd.types| == |v|
    ensures |pd.colors| == |v| && |pd.compartmentIds| == |v| && pd.lines == []
  {
    if v == [] then PolyData([], [], [], [], [], [])
    else InsertPoint(PointData(v[..|v| - 1], colorOf, minRadius), v[|v| - 1], colorOf, minRadius)
  }

  /** `pidmap` once the nodes `v` have been inserted: each id to the point inserted for it last. */
  function PidMap(v: seq<Compartment>): map<int, int>
  {
    if v == [] then map[] else PidMap(v[..|v| - 1])[v[|v| - 1].id := |v| - 1]
  }

  /** Point j of the assembled point data carries the position, clamped radius, type, colour and
      id of the j-th visited node. */
  lemma {:induction false} PointDataAt(v: seq<Compartment>, colorOf: Compartment -> Rgb, minRadius: real, j: int)
    requires 0 <= j < |v|
    ensures var pd := PointData(v, colorOf, minRadius);
      && pd.points[j] == Position(v[j])
      && pd.radii[j] == Max(v[j].radius, minRadius)
      && pd.types[j] == v[j].kind
      && pd.colors[j] == colorOf(v[j])
      && pd.compartmentIds[j] == v[j].id
    decreases |v|
  {
    if j < |v| - 1 {
      PointDataAt(v[..|v| - 1], colorOf, minRadius, j);
    }
  }

  /** `pidmap` holds exactly the visited ids, each mapped to the last position holding it. */
  lemma {:induction false} PidMapLookup(v: seq<Compartment>, id: int)
    ensures id in PidMap(v) <==> LastIndexOfId(v, id) >= 0
    ensures id in PidMap(v) ==> PidMap(v)[id] == LastIndexOfId(v, id)
    decreases |v|
  {
    if v != [] {
      PidMapLookup(v[..|v| - 1], id);
    }
  }

  /** Inserting one more node: every piece of assembly state moves by one step. */
  lemma AssemblySnoc(v: seq<Compartment>, n: Compartment, soma: Compartment, colorOf: Compartment -> Rgb,
                     minRadius: real)
    ensures PointData(v + [n], colorOf, minRadius) == InsertPoint(PointData(v, colorOf, minRadius), n, colorOf, minRadius)
    ensures PidMap(v + [n]) == PidMap(v)[n.id := |v|]
    ensures LastIndexOf(v + [n], soma) == if n == soma then |v| else LastIndexOf(v, soma)
    ensures SomaChildRadius(v + [n], soma) == if n.parent == soma.id then n.radius else SomaChildRadius(v, soma)
  {
    assert (v + [n])[..|v|] == v;
  }

  /** A node with a parent finds that parent among the points already inserted for its tree. */
  lemma StitchFound(before: seq<Compartment>, nodes: seq<Compartment>, i: int)
    requires ParentsEarlier(nodes)
    requires 0 <= i < |nodes| && nodes[i].parent != NoParent
    ensures LastIndexOfId(before + nodes[..i], nodes[i].parent) >= |before|
  {
    assert ParentBefore(nodes, i);
    var m :| 0 <= m < i && nodes[i].parent == nodes[m].id;
    assert (before + nodes[..i])[|before| + m] == nodes[m];
  }

  /** The open line is empty exactly when no run is in progress at i. */
  lemma OpenLineEmpty(before: seq<Compartment>, nodes: seq<Compartment>, i: int)
    requires 0 <= i <= |nodes|
    ensures OpenLine(before, nodes, i) == [] <==> RunStart(nodes, i) == i
  {
    var s := RunStart(nodes, i);
    if s < i {
      assert |Range(|before| + s, |before| + i)| > 0;
    }
  }

  /** Extending a run by one node appends that node's point to its cell. */
  lemma CellSnoc(before: seq<Compartment>, nodes: seq<Compartment>, s: int, i: int)
    requires 0 <= s < i < |nodes|
    ensures CellAt(before, nodes, s, i) == CellAt(before, nodes, s, i - 1) + [|before| + i]
  {
    var a, b := |before| + s, |before| + i;
    RangeSnoc(a, b);
    ConcatAssoc(Stitch(before, nodes, s), Range(a, b), [b]);
  }

  /** Appending point i to a non-empty open line yields the cell of the run up to i. */
  lemma OpenLineExtend(before: seq<Compartment>, nodes: seq<Compartment>, i: int)
    requires 0 <= i < |nodes|
    ensures OpenLine(before, nodes, i) == [] <==> RunStart(nodes, i) == i
    ensures RunStart(nodes, i) < i ==>
      CellAt(before, nodes, RunStart(nodes, i), i) == OpenLine(before, nodes, i) + [|before| + i]
  {
    OpenLineEmpty(before, nodes, i);
    var s := RunStart(nodes, i);
    if s < i {
      CellSnoc(before, nodes, s, i);
    }
  }

  /** A run that starts at i begins with the stitch to the parent's point, then point i. */
  lemma OpenLineStart(before: seq<Compartment>, nodes: seq<Compartment>, i: int)
    requires 0 <= i < |nodes|
    ensures CellAt(before, nodes, i, i) == Stitch(before, nodes, i) + [|before| + i]
  {
    var b := |before| + i;
    assert Range(b, b + 1) == [b];
  }

  /** Adding node i: a leaf closes the cell of its run and empties the open line; any other node
      leaves the closed cells alone and becomes the end of the open line. */
  lemma CellsStep(before: seq<Compartment>, nodes: seq<Compartment>, i: int)
    requires 0 <= i < |nodes|
    ensures IsLeaf(nodes[i]) ==>
      && Cells(before, nodes, i + 1) == Cells(before, nodes, i) + [CellAt(before, nodes, RunStart(nodes, i), i)]
      && OpenLine(before, nodes, i + 1) == []
    ensures !IsLeaf(nodes[i]) ==>
      && Cells(before, nodes, i + 1) == Cells(before, nodes, i)
      && OpenLine(before, nodes, i + 1) == CellAt(before, nodes, RunStart(nodes, i), i)
  {
  }

  /** One step of the cell bookkeeping: `stitched` is the open line once the parent's point is
      stitched to an empty line; appending point i to it gives the next open line, which a leaf
      closes. */
  lemma LinesStep(before: seq<Compartment>, nodes: seq<Compartment>, i: int, line: seq<int>, stitched: seq<int>)
    requires 0 <= i < |nodes| && line == OpenLine(before, nodes, i)
    requires |line| == 0 && nodes[i].parent != NoParent ==>
      stitched == [LastIndexOfId(before + nodes[..i], nodes[i].parent)]
    requires !(|line| == 0 && nodes[i].parent != NoParent) ==> stitched == line
    ensures IsLeaf(nodes[i]) ==>
      && Cells(before, nodes, i + 1) == Cells(before, nodes, i) + [stitched + [|before| + i]]
      && OpenLine(before, nodes, i + 1) == []
    ensures !IsLeaf(nodes[i]) ==>
      && Cells(before, nodes, i + 1) == Cells(before, nodes, i)
      && OpenLine(before, nodes, i + 1) == stitched + [|before| + i]
  {
    OpenLineExtend(before, nodes, i);
    OpenLineStart(before, nodes, i);
    CellsStep(before, nodes, i);
  }

  lemma RangeSnoc(a: int, b: int)
    requires a <= b
    ensures Range(a, b + 1) == Range(a, b) + [b]
  {
  }

  lemma PrefixSnoc<T>(s: seq<T>, i: int)
    requires 0 <= i < |s|
    ensures s[..i + 1] == s[..i] + [s[i]]
    ensures s[..i + 1][..i] == s[..i]
  {
  }

  /** A run that starts at a node with a parent opens with the parent's point id, looked up in the
      id-to-point map. */
  method StartLine(ghost before: seq<Compartment>, ghost nodes: seq<Compartment>, ghost i: int, node: Compartment,
                   pidmap: map<int, int>, line: seq<int>)
    returns (line': seq<int>)
    requires ParentsEarlier(nodes) && 0 <= i < |nodes| && node == nodes[i]
    requires pidmap == PidMap(before + nodes[..i])
    ensures |line| == 0 && node.parent != NoParent ==> line' == [LastIndexOfId(before + nodes[..i], node.parent)]
    ensures !(|line| == 0 && node.parent != NoParent) ==> line' == line
  {
    line' := line;
    if |line| == 0 && node.parent != NoParent {
      StitchFound(before, nodes, i);
      PidMapLookup(before + nodes[..i], node.parent);
      line' := line + [pidmap[node.parent]];
    }
  }

  /** The point bookkeeping for one node: insert its point and attributes, note it as the soma's
      point or its radius as the soma child's radius, and map its id to the new point id `pid`. */
  method InsertNode(pd: PolyData, pidmap: map<int, int>, somaPid: int, somaRadius: real, node: Compartment,
                    soma: Compartment, colorOf: Compartment -> Rgb, minRadius: real, ghost visited: seq<Compartment>)
    returns (pd': PolyData, pidmap': map<int, int>, somaPid': int, somaRadius': real, pid: int)
    requires pd == PointData(visited, colorOf, minRadius) && pidmap == PidMap(visited)
    requires somaPid == LastIndexOf(visited, soma) && somaRadius == SomaChildRadius(visited, soma)
    ensures pd' == PointData(visited + [node], colorOf, minRadius) && pidmap' == PidMap(visited + [node])
    ensures somaPid' == LastIndexOf(visited + [node], soma) && somaRadius' == SomaChildRadius(visited + [node], soma)
    ensures pid == |visited|
  {
    AssemblySnoc(visited, node, soma, colorOf, minRadius);
    pid := |pd.points|;
    pd' := InsertPoint(pd, node, colorOf, minRadius);
    somaPid', somaRadius' := somaPid, somaRadius;
    if node == soma {
      somaPid' := pid;
    }
    if node.parent == soma.id {
      somaRadius' := node.radius;
    }
    pidmap' := pidmap[node.id := pid];
  }

  /** The line bookkeeping for node i of a tree, once the parent's point is stitched to an empty
      line: append the node's point `pid` and emit the line as a cell when the node is a leaf. */
  method ExtendLine(ghost before: seq<Compartment>, ghost nodes: seq<Compartment>, ghost i: int, node: Compartment,
                    ghost lines0: seq<seq<int>>, lines: seq<seq<int>>, ghost line0: seq<int>, line: seq<int>, pid: int)
    returns (lines': seq<seq<int>>, line': seq<int>)
    requires 0 <= i < |nodes| && node == nodes[i] && pid == |before| + i
    requires lines == lines0 + Cells(before, nodes, i) && line0 == OpenLine(before, nodes, i)
    requires |line0| == 0 && node.parent != NoParent ==> line == [LastIndexOfId(before + nodes[..i], node.parent)]
    requires !(|line0| == 0 && node.parent != NoParent) ==> line == line0
    ensures lines' == lines0 + Cells(before, nodes, i + 1) && line' == OpenLine(before, nodes, i + 1)
  {
    LinesStep(before, nodes, i, line0, line);
    line' := line + [pid];
    lines' := lines;
    if IsLeaf(node) {
      ConcatAssoc(lines0, Cells(before, nodes, i), [line']);
      lines' := lines' + [line'];
      line' := [];
    }
  }

  /** The body of the per-root loop of morphology_polydata: add the pre-ordered nodes of one tree
      as points and close a cell at every leaf, keeping `pidmap`, the soma's point and the soma
      child's radius up to date. */
  method AppendTree(nodes: seq<Compartment>, soma: Compartment, colorOf: Compartment -> Rgb, minRadius: real,
                    ghost before: seq<Compartment>, pd0: PolyData, lines0: seq<seq<int>>, pidmap0: map<int, int>,
                    somaPid0: int, somaRadius0: real)
    returns (pd: PolyData, lines: seq<seq<int>>, pidmap: map<int, int>, somaPid: int, somaRadius: real)
    requires ParentsEarlier(nodes)
    requires pd0 == PointData(before, colorOf, minRadius) && pidmap0 == PidMap(before)
    requires somaPid0 == LastIndexOf(before, soma) && somaRadius0 == SomaChildRadius(before, soma)
    ensures pd == PointData(before + nodes, colorOf, minRadius) && pidmap == PidMap(before + nodes)
    ensures somaPid == LastIndexOf(before + nodes, soma) && somaRadius == SomaChildRadius(before + nodes, soma)
    ensures lines == lines0 + Cells(before, nodes, |nodes|)
  {
    pd, lines, pidmap, somaPid, somaRadius := pd0, lines0, pidmap0, somaPid0, somaRadius0;
    ghost var visited := before;
    var line: seq<int> := [];
    var i := 0;
    while i < |nodes|
      invariant 0 <= i <= |nodes|
      invariant visited == before + nodes[..i]
      invariant pd == PointData(visited, colorOf, minRadius) && pidmap == PidMap(visited)
      invariant somaPid == LastIndexOf(visited, soma) && somaRadius == SomaChildRadius(visited, soma)
      invariant lines == lines0 + Cells(before, nodes, i)
      invariant line == OpenLine(before, nodes, i)
    {
      var node := nodes[i];
      ghost var line0 := line;
      line := StartLine(before, nodes, i, node, pidmap, line);
      var pid;
      pd, pidmap, somaPid, somaRadius, pid :=
        InsertNode(pd, pidmap, somaPid, somaRadius, node, soma, colorOf, minRadius, visited);
      lines, line := ExtendLine(before, nodes, i, node, lines0, lines, line0, line, pid);
      PrefixSnoc(nodes, i);
      ConcatAssoc(before, nodes[..i], [node]);
      visited := visited + [node];
      i := i + 1;
    }
    assert nodes[..|nodes|] == nodes;
  }

  /** One more root: its pre-order follows the earlier visits and its cells the earlier cells. */
  lemma VisitSnoc(cs: map<int, Compartment>, rank: int -> nat, roots: seq<Compartment>, ri: int)
    requires Forest(cs, rank)
    requires forall i :: 0 <= i < |roots| ==> Member(cs, roots[i])
    requires 0 <= ri < |roots|
    ensures Visit(cs, rank, roots[..ri + 1]) == Visit(cs, rank, roots[..ri]) + Preorder(cs, rank, roots[ri])
    ensures Polylines(cs, rank, roots[..ri + 1]) ==
      Polylines(cs, rank, roots[..ri]) + Cells(Visit(cs, rank, roots[..ri]), Preorder(cs, rank, roots[ri]),
                                               |Preorder(cs, rank, roots[ri])|)
  {
    PrefixSnoc(roots, ri);
  }

  /** The assembled point data with the soma fix-up applied carries the stored radii and the
      visited nodes' other attributes. */
  lemma FixUpRadii(v: seq<Compartment>, soma: Compartment, colorOf: Compartment -> Rgb, minRadius: real)
    ensures var pd := PointData(v, colorOf, minRadius);
      var somaPid, somaRadius := LastIndexOf(v, soma), SomaChildRadius(v, soma);
      var radii := if somaRadius > 0.0 && somaPid >= 0 then pd.radii[somaPid := somaRadius] else pd.radii;
      && |radii| == |v|
      && forall j :: 0 <= j < |v| ==>
           && pd.points[j] == Position(v[j])
           && radii[j] == StoredRadius(v, soma, minRadius, j)
           && pd.types[j] == v[j].kind
           && pd.colors[j] == colorOf(v[j])
           && pd.compartmentIds[j] == v[j].id
  {
    forall j | 0 <= j < |v| {
      PointDataAt(v, colorOf, minRadius, j);
    }
  }

  /** morphology_polydata: traverse each root in map order, insert one point per visited node with
      its attributes, close a cell at every leaf (stitching each new branch to its parent's point),
      then overwrite the soma's radius with its child's when one was seen. */
  method MorphologyPolydata(cs: map<int, Compartment>, order: seq<int>, soma: Compartment,
                            colorOf: Compartment -> Rgb, minRadius: real, ghost rank: int -> nat)
    returns (pd: PolyData)
    requires Forest(cs, rank)
    requires forall i :: 0 <= i < |order| ==> order[i] in cs
    requires forall k :: k in cs ==> k in order
    requires forall i, j :: 0 <= i < j < |order| ==> order[i] != order[j]
    ensures var v := Visit(cs, rank, Roots(cs, order));
      && |pd.points| == |v| && |pd.radii| == |v| && |pd.types| == |v|
      && |pd.colors| == |v| && |pd.compartmentIds| == |v|
      && (forall j :: 0 <= j < |v| ==>
            && pd.points[j] == Position(v[j])
            && pd.radii[j] == StoredRadius(v, soma, minRadius, j)
            && pd.types[j] == v[j].kind
            && pd.colors[j] == colorOf(v[j])
            && pd.compartmentIds[j] == v[j].id)
    ensures pd.lines == Polylines(cs, rank, Roots(cs, order))
  {
    pd := PolyData([], [], [], [], [], []);
    var lines: seq<seq<int>> := [];
    var pidmap: map<int, int> := map[];
    var somaPid := -1;
    var somaRadius := 0.0;
    var roots := Roots(cs, order);
    ghost var visited: seq<Compartment> := [];
    var ri := 0;
    while ri < |roots|
      invariant 0 <= ri <= |roots|
      invariant visited == Visit(cs, rank, roots[..ri])
      invariant pd == PointData(visited, colorOf, minRadius) && pidmap == PidMap(visited)
      invariant somaPid == LastIndexOf(visited, soma) && somaRadius == SomaChildRadius(visited, soma)
      invariant lines == Polylines(cs, rank, roots[..ri])
    {
      var nodes := PreorderTraversal(roots[ri], cs, rank);
      TreeParentsEarlier(cs, rank, roots[ri]);
      VisitSnoc(cs, rank, roots, ri);
      pd, lines, pidmap, somaPid, somaRadius :=
        AppendTree(nodes, soma, colorOf, minRadius, visited, pd, lines, pidmap, somaPid, somaRadius);
      visited := visited + nodes;
      ri := ri + 1;
    }
    assert roots[..|roots|] == roots;
    FixUpRadii(visited, soma, colorOf, minRadius);
    if somaRadius > 0.0 && somaPid >= 0 {
      pd := pd.(radii := pd.radii[somaPid := somaRadius]);
    }
    pd := pd.(lines := lines);
  }
}
