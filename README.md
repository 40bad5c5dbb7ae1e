# blenderspin core in Dafny

blenderspin turns neuron reconstructions into tube meshes that are rendered in Blender. This
project models the core steps that run before the rendering.

A reconstruction is a map from compartment id to a record. Each record holds a parent id (-1 for
a root), a list of child ids, a position, a radius and a type (1 soma, 2 axon, 3 basal dendrite,
4 apical dendrite). The modelled steps are:

- **Traversal** (`vtkmorph.py`, `preorder_traversal`): a depth-first walk of one tree that uses
  an explicit stack. Child ids missing from the map are skipped. Because the stack is popped from
  the top, the last child of a node is visited first. The walk is the ghost function `Preorder`.
  The method `PreorderTraversal` is proved equal to it.
- **Polyline assembly** (`vtkmorph.py`, `morphology_polydata`):
  - every visited node becomes one point, with parallel radius, type, colour and id arrays;
  - every leaf closes one polyline cell;
  - a new branch starts with the point of its parent, looked up through the id-to-point map;
  - at the end, the soma's radius entry is overwritten by the radius of the soma's last visited
    child, when that radius is positive.

  The method `MorphologyPolydata` is proved to produce exactly these arrays. The lemmas in
  `Branches` prove what the cell array means:
  - there is one cell per leaf, and the cell ends strictly increase, so cell k ends at the k-th
    visited leaf;
  - every cell is a branch that ends at its leaf: the points from just after the previous leaf
    (or from its tree's root) up to that leaf, opened with the parent's point when it does not
    start at a root;
  - every index in a cell is a point of the data;
  - when every child id names a record of the map, consecutive points of a cell are parent and
    child. A child id with no record breaks this (see "## Findings").
- **Strip regrouping** (`vtkmorph.py`, `tube_to_numpy`): the tube filter's triangle strips arrive
  as one flat array `n, p1..pn, n, p1..pn, ...`.
  - Each strip is filed under the type of its last point.
  - The strips of one type are joined into a single strip, with two repeated indices between
    neighbours.
  - An empty strip, or a point id past the type array, raises an index error. The model returns
    `None` for it.
- **Projection lines** (`vtkconn.py`, `build_vtk`): every sample of every line becomes a point,
  with its density as the radius. Every line becomes one cell that lists its points' ids.
- **Colour policies** (`make_tubes.py` and `celltypes/make_tubes.py`):
  - a ten-entry palette assigned to categories;
  - a clamped hot colour ramp over a window of two standard deviations around the mean;
  - a fixed colour per compartment type.

  The two scripts' colour functions are identical, so they are modelled once.
- **Geometry** (`celltypes/xform.py` and the two `make_transformed_morphology` functions):
  - 4x4 homogeneous scale, translate and axis-rotation builders;
  - the in-place transform of every compartment, with the millimetre conversion in one script
    and without it in the other;
  - `align_apical_dendrite`, which overwrites its fitted angle with 0 and so always returns the
    identity.

Files:

| file | module | models |
|---|---|---|
| `wrappers.dfy` | `Wrappers` | `Option`, Python's `max` and `min` on two numbers |
| `morphology.dfy` | `Morphology` | compartment records, the well-formed forest |
| `traversal.dfy` | `Traversal` | `preorder_traversal` |
| `polydata.dfy` | `PolyData` | `morphology_polydata` |
| `branches.dfy` | `Branches` | properties of the cell array |
| `strips.dfy` | `Strips` | `tube_to_numpy` |
| `conn.dfy` | `Conn` | `build_vtk` |
| `colors.dfy` | `Colors` | `color_by_category`, `color_by_value`, `color_by_type` |
| `xform.dfy` | `Xform` | `scale3`, `translate3`, `rotate3x/y/z`, matrix products |
| `tubes.dfy` | `Tubes` | `make_transformed_morphology` (both), `align_apical_dendrite` |
| `findings.dfy` | `Findings` | the dangling-child case of `morphology_polydata`, as written and as intended |

### Edge cases of the assembly

- **A lone root.** The leaf test at vtkmorph.py:84 closes a cell at every node whose children
  list is empty, a root included. So a tree of one compartment gives the one-point cell `[0]`
  (`Branches.LoneRoot`).
- **The soma-radius override.** The comment at vtkmorph.py:66-68 says the radius of one of the
  soma's children is used. The code at vtkmorph.py:71-72 overwrites the saved radius at every
  child of the soma it visits, so the last visited child wins. The check at vtkmorph.py:95
  leaves the entry as it was when that radius is not positive (`PolyData.StoredRadiusBound`).

## Model

| member | source | states |
|---|---|---|
| Traversal.PushChildren | vtkmorph.py:16-19 | the stack grows by exactly the children present in the map, in list order; missing child ids are skipped |
| Traversal.PreorderTraversal | vtkmorph.py:7-26 | the stack loop returns exactly the pre-order of the root: the node, then its present children's subtrees, last child first |
| Traversal.VisitStep | vtkmorph.py:13-24 | one loop turn (emit the node, push its children) leaves the rest of the walk unchanged |
| Traversal.PreorderReached | vtkmorph.py:13-24 | every node after the first is a present child of a node visited before it |
| Traversal.PreorderParents | vtkmorph.py:13-24 | every node after the first has its parent earlier in the list |
| Traversal.PreorderClosed | vtkmorph.py:16-19 | every present child of a visited node is visited too: the walk covers the whole tree |
| Traversal.PreorderDistinct | vtkmorph.py:13-24 | when no children list repeats an id, no compartment is visited twice |
| Traversal.PreorderLastChildNext | vtkmorph.py:16-24 | a node with present children is followed immediately by its last present child |
| Traversal.PreorderWalksTree | vtkmorph.py:7-26 | the walk starts at the root, reaches each node from an earlier parent, is closed under children, and is duplicate-free for unique children lists |
| PolyData.Roots | vtkmorph.py:52 | the roots are exactly the records with parent -1: each is a member of the map, every listed key whose record has parent -1 is among them, and there are no more roots than keys |
| PolyData.RootsPrefix | vtkmorph.py:52 | the roots keep the order of the keys: the roots among the first i keys come first, and the i-th key's record, when it is a root, is the next root |
| PolyData.MorphologyPolydata | vtkmorph.py:28-107 | point j carries the position, stored radius, type, colour and id of the j-th visited node; the cell array is the polylines of the forest |
| PolyData.AppendTree | vtkmorph.py:56-88 | one tree's nodes extend the point data, id map, soma point and soma-child radius, and add one cell per leaf of the tree |
| PolyData.StartLine | vtkmorph.py:61-62 | a new line of a node with a parent opens with the parent's point id, found in the id map |
| PolyData.InsertNode | vtkmorph.py:64-81 | inserting a node appends its point and attributes, maps its id to the new point, and tracks the soma's point and the soma child's radius |
| PolyData.ExtendLine | vtkmorph.py:83-88 | the node's point joins the open line; at a leaf the line becomes a cell and a new one starts |
| PolyData.TreeParentsEarlier | vtkmorph.py:56-62 | within a tree's walk every non-root node's parent comes earlier, so the parent lookup cannot fail |
| PolyData.StitchFound | vtkmorph.py:61-62 | a branch's parent is found among the points already inserted for the same tree |
| PolyData.PidMapLookup | vtkmorph.py:81 | the id map holds exactly the visited ids, each mapped to the last point inserted for it |
| PolyData.PointDataAt | vtkmorph.py:64-81 | point j has the j-th node's position, radius raised to minRadius, type, colour and id |
| PolyData.AssemblySnoc | vtkmorph.py:64-81 | one more node moves every piece of assembly state by one step |
| PolyData.OpenLineEmpty | vtkmorph.py:58-62 | the open line is empty exactly at the start of a tree or right after a leaf |
| PolyData.VisitSnoc | vtkmorph.py:54-60 | one more root appends its pre-order to the visited nodes and its cells to the cell array |
| PolyData.FixUpRadii | vtkmorph.py:94-96 | after the soma fix-up, every radius entry is the stored radius and the other arrays are unchanged |
| PolyData.StoredRadiusBound | vtkmorph.py:69-96 | every radius entry is at least minRadius and the node's radius, except the soma entry when overridden: that one is the positive radius of the soma's last visited child |
| Branches.PolylinesAreBranches | vtkmorph.py:54-88 | the forest has exactly one cell per leaf; every cell is a branch (a run of points ending at a leaf, starting at a root or right after the previous leaf, then opened with its parent's point); cell ends strictly increase, so cell k ends at the k-th leaf |
| Branches.CellIsBranch | vtkmorph.py:60-88 | the cell closed at leaf e of a tree is a branch of the visited nodes: the whole run since the previous leaf, stitched to the parent's last point |
| Branches.CellEnds | vtkmorph.py:83-88 | the cells of one tree end at that tree's own points, in increasing order |
| Branches.PolylineEnds | vtkmorph.py:54-88 | every cell of the forest ends at a visited point, and later cells end at later points |
| Branches.LeafCountCounts | vtkmorph.py:84 | the leaf count is the number of visited positions whose children list is empty |
| Branches.BranchBounds | vtkmorph.py:83-88 | a branch cell is non-empty, ends at a leaf, and only indexes existing points |
| Branches.InnerNodeFollowedByChild | vtkmorph.py:16-24 | with no dangling child ids, a node that is not a leaf is followed by one of its children |
| Branches.VisitInnerFollowedByChild | vtkmorph.py:54-56 | the same holds over all trees of the visit |
| Branches.PolylinesFollowTree | vtkmorph.py:58-88 | with no dangling child ids, each consecutive pair of points in a cell is a parent and its child |
| Branches.SingleLeafCell | vtkmorph.py:83-88 | a childless root alone gives the cell [0] |
| Branches.LoneRoot | vtkmorph.py:52-88 | a map holding one childless root is a forest, and its cell array is [[0]] |
| Strips.StripEnd | vtkmorph.py:185 | a strip ends after its count, or at the end of the array if that comes first |
| Strips.StripType | vtkmorph.py:187 | a strip can be classified exactly when it is non-empty and its last point has a type |
| Strips.TubeToNumpy | vtkmorph.py:161-191 | the loop returns the filing of all strips of the flat array, and None as soon as a strip raises |
| Strips.NextStrip | vtkmorph.py:181-185 | one turn reads the count, the strip after it (cut short at the end) and the next offset, and parsing continues from there |
| Strips.GroupSnoc | vtkmorph.py:171-189 | filing a classifiable strip appends it to its type's entry |
| Strips.GroupSnocFails | vtkmorph.py:185-187 | filing an empty or unclassifiable strip raises |
| Strips.GroupFailurePersists | vtkmorph.py:180-191 | once a strip raises, no later strip recovers the result |
| Strips.GroupSucceedsIff | vtkmorph.py:185-189 | regrouping succeeds exactly when every strip is non-empty and its last point has a type |
| Strips.ParseEncode | vtkmorph.py:179-191 | parsing inverts the flat layout: encoded strips are read back unchanged |
| Strips.GroupIsJoin | vtkmorph.py:171-177 | a type has an entry exactly when some strip has that type, and the entry is that type's strips, in order, joined by two repeated indices |
| Strips.JoinLength | vtkmorph.py:175-177 | joining k non-empty strips gives their total length plus 2(k-1) indices |
| Strips.TypeArrayLength | vtkmorph.py:161-191 | each type's array holds its strips' indices plus two per join |
| Conn.BuildVtk | vtkconn.py:37-64 | the points, radii and cells are the samples' positions, densities and per-line id runs |
| Conn.InsertSamples | vtkconn.py:46-52 | one line appends its positions and densities, and collects the consecutive new point ids |
| Conn.InsertCell | vtkconn.py:54-56 | the cell lists the collected point ids in order |
| Conn.Points | vtkconn.py:45-48 | there is one point per sample |
| Conn.Radii | vtkconn.py:45-50 | there is one radius per sample |
| Conn.Cells | vtkconn.py:45-56 | there is one cell per line |
| Conn.OffsetBounds | vtkconn.py:45-52 | each line's points start where the previous line's ended, within the total |
| Conn.CellAddressesItsLine | vtkconn.py:45-56 | cell k lists the consecutive ids of line k, and point (offset + i) is sample i of line k with its density |
| Conn.CellsDisjoint | vtkconn.py:45-56 | every id in an earlier cell is below every id in a later cell: no two lines share a point |
| Conn.OffsetMonotone | vtkconn.py:45-52 | line offsets never decrease |
| Colors.PaletteDistinct | make_tubes.py:45-56 | the palette has ten pairwise distinct colours |
| Colors.AssignPalette | celltypes/make_tubes.py:96-98 | the comprehension's keys are exactly the enumerated categories |
| Colors.AssignPaletteAt | celltypes/make_tubes.py:98 | the i-th enumerated category gets palette entry i |
| Colors.ColorByCategorySpec | make_tubes.py:44-60 | fails exactly for more than ten categories; otherwise covers exactly the present categories with pairwise distinct colours |
| Colors.Minimum | make_tubes.py:68 | the minimum is a value of the data and no value is below it |
| Colors.Maximum | make_tubes.py:69 | the maximum is a value of the data and no value is above it |
| Colors.ColorWindow | make_tubes.py:63-69 | a window exists exactly for non-empty data and lies within [min, max] |
| Colors.ColorWindowOrdered | celltypes/make_tubes.py:103-107 | the window is not inverted when the mean lies in the data range and the deviation is non-negative |
| Colors.Clamp01 | make_tubes.py:89 | the clamp lands in [0, 1], is the identity there, and maps below to 0 and above to 1 |
| Colors.RampPosition | make_tubes.py:88-89 | the ramp position lies in [0, 1]; it is NaN exactly when the window is degenerate and the value sits on it |
| Colors.BracketRamp | make_tubes.py:90-98 | inside [0, 1] the stop loop returns red 255 with the ramp's green and blue |
| Colors.RampInRange | celltypes/make_tubes.py:128-136 | green and blue stay within [0, 255] |
| Colors.RampMonotone | celltypes/make_tubes.py:128-136 | green and blue never decrease along the ramp |
| Colors.HotmapTotal | make_tubes.py:87-100 | hotmap never reads past the last stop; it returns None exactly for a degenerate window holding the value; otherwise red is 255 and green and blue are in [0, 255] |
| Colors.HotmapStops | celltypes/make_tubes.py:114-136 | the window's ends and its 0.66 point get the three stop colours |
| Colors.HotmapMonotone | make_tubes.py:87-98 | over an ordered window, green and blue never decrease as the value grows |
| Colors.ColorByType | make_tubes.py:105-113 | there is a colour exactly for types 1 to 4, each channel in [0, 255]; any other type is a missing key |
| Colors.TypeColorsDistinct | celltypes/make_tubes.py:143-151 | different types get different colours |
| Tubes.TransformMorphology | celltypes/make_tubes.py:64-79 | every compartment in the list is replaced by its moved self: transformed position, scaled radius |
| Tubes.TransformMorphologyToMillimetres | make_tubes.py:26-41 | every compartment is replaced by its moved self, in millimetres |
| Tubes.MovedKeepsTree | make_tubes.py:29-39 | moving changes only position and radius; id, parent, children and type are kept |
| Tubes.MovedIsApply | celltypes/make_tubes.py:67-76 | for an affine transform, the new position is the transform applied to the homogeneous old position |
| Tubes.MillimetresIsThousandth | make_tubes.py:36-39 | the millimetre variant is the plain move with position and radius divided by 1000 |
| Tubes.MovedIdentity | celltypes/make_tubes.py:64-79 | the identity with unit scale leaves a compartment unchanged |
| Tubes.MovedTwice | celltypes/make_tubes.py:64-79 | moving twice is moving once by the product of the transforms and of the scales |
| Tubes.AlignIsIdentity | celltypes/make_tubes.py:28-61 | with the angle forced to 0, the alignment is the identity, with or without apical compartments |
| Tubes.AlignedMoveIsNoOp | celltypes/make_tubes.py:28-79 | moving by the alignment with unit scale changes no compartment |
| Xform.Apply | celltypes/make_tubes.py:69 | the product's entry i is row i dotted with the point |
| Xform.Mul | celltypes/make_tubes.py:59 | the matrix product is 4x4, and entry (i, j) is row i of a dotted with column j of b |
| Xform.BuildersAffine | celltypes/xform.py:3-40 | every builder yields an affine 4x4 matrix |
| Xform.AffineKeepsW | celltypes/xform.py:3-40 | an affine matrix maps a point with w = 1 to a point with w = 1 |
| Xform.ScaleAction | celltypes/xform.py:3-7 | scale3 multiplies each coordinate by its factor |
| Xform.TranslateAction | celltypes/xform.py:9-13 | translate3 adds its offset to a point |
| Xform.TranslateInverse | celltypes/xform.py:9-13 | translating by an offset and by its negation, in either order, is the identity |
| Xform.IdentityUnit | celltypes/make_tubes.py:59 | the identity is a unit of the matrix product on both sides |
| Xform.RotationsFixAxis | celltypes/xform.py:15-40 | each rotation keeps its own axis coordinate and w |
| Xform.RotationsKeepLength | celltypes/xform.py:15-40 | when cos² + sin² = 1, each rotation keeps a point's distance from the origin |
| Xform.IdentityCases | celltypes/xform.py:3-40 | a zero angle, unit scale and zero translation each give the identity |
| Xform.IdentityAction | celltypes/make_tubes.py:32 | the identity maps every point to itself |
| Findings.DanglingChildBreaksCell | vtkmorph.py:16-88 | as written: for a root with children 2 and 3 where 3 lists the absent id 99, the walk is 1, 3, 2, the only cell is [0, 1, 2], and its step from 3 to 2 does not follow the tree |
| Findings.PresentIds | vtkmorph.py:16-19 | the pruned list holds the ids of exactly the present children, in order |
| Findings.PruneForest | vtkmorph.py:16-19 | pruning keeps the forest, the keys, and every record's id, parent, type, radius and position; it leaves no dangling child; a pruned record is a leaf exactly when it has no present child |
| Findings.VisitMembers | vtkmorph.py:54-56 | every visited node is a record of the map |
| Findings.PrunedCells | vtkmorph.py:54-88 | on the pruned map, read through each point's compartment id, every step of every cell goes from a parent to its child, and every cell ends at a node with no present child |
| Findings.MorphologyPolydataPruned | vtkmorph.py:28-107 | intended: for any forest, dangling child ids included, every step of every cell goes from a parent to its child, and every cell ends at a compartment with no present child |
| Findings.PrunedDanglingCells | vtkmorph.py:54-88 | intended, on the same example: the cells are [0, 1] and [0, 2] |

## Findings

| source | as written | input that shows it | evidently intended | confidence | as-written member | corrected member |
|---|---|---|---|---|---|---|
| vtkmorph.py:84 | a cell closes only at a node whose children list is empty, but the walk at vtkmorph.py:16-19 skips child ids that have no record | root 1 with children [2, 3], 2 childless, 3 with children [99] and no record 99: the walk is 1, 3, 2 and the only cell is [0, 1, 2], whose step from 3 to 2 is not from a parent to its child | a node with no present child closes a cell, giving [0, 1] and [0, 2], and every step of every cell goes from a parent to its child | not executed | Findings.DanglingChildBreaksCell | Findings.MorphologyPolydataPruned |

The main model, `PolyData.MorphologyPolydata`, keeps the code as written. The corrected assembly
runs it on the map with every children list cut down to the ids it holds.

## Left out

**Outside the modelled core**
- The VTK filters and file output are not modelled: `generate_tube`, `generate_sphere`, the
  writers and the Blender scripts run in libraries whose code is not visible. The same goes for
  tract download and the `npz` load and save in `vtkconn.py`, the per-specimen `main*` scripts,
  `spinning_camera.py`, `hmtg` and `ephys`.
- `tube_to_numpy` also passes through the points, compartment ids, normals and types it reads
  from the VTK data, and casts each type's array to `uint32`. Only the strip regrouping is
  modelled.

**Deliberate simplifications**
- The point-pair loop at vtkmorph.py:90-92 is not modelled. It reads pairs of points and
  discards them, so it has no effect.
- `print` statements are not modelled.
- The enumeration order of Python dicts and sets is not modelled. The model takes it as the
  `order` parameter (the compartment map in `MorphologyPolydata`, the category set in
  `ColorByCategory`).
- Aliasing is not modelled. Compartment records are values: in the source, the compartment list
  and the id map share the same dicts. The in-place transforms work on an array of records.
- Cycle detection is not modelled. A well-formed forest, witnessed by a rank that decreases from
  parent to child, is a precondition of the traversal. The source assumes an acyclic map and has
  no check.
- `PolyData.MorphologyPolydata`: the colour function is a total parameter. The `KeyError`
  `color_by_type` raises for a type outside 1 to 4 is modelled in `Colors.ColorByType` but not
  propagated into the assembly.
- `Traversal.PreorderDistinct` holds only when no children list repeats an id
  (`UniqueChildren`). A repeated child id would be walked twice, as in the source.

**Numbers**
- Floating point is modelled as reals. In particular:
  - the division by 1000 is exact;
  - the `floor` of the ramp channels is Dafny's integer floor of a real.
- For the ramp, numpy's division by zero in a degenerate window is modelled by its outcomes:
  ±inf is clamped to 0 or 1, and 0/0 gives NaN, which is `None`.
- Integer-valued data, for which Python 2 would floor-divide the ramp position, is not modelled.
- `np.mean`, `np.std`, `cos` and `sin` are inputs. `align_apical_dendrite`'s regression
  (`linregress`, `arctan2`) is not modelled, because its result is overwritten before use.
- The integer widths of the VTK and numpy arrays are not modelled: the `unsigned char` type and
  colour arrays, the `unsigned int` id array, and the `uint32` strips. Types, colours and ids
  are unbounded integers, and strip indices are naturals.
