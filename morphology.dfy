/** The compartment tree of a neuron reconstruction: a map from compartment id to its record.
    Parent and children are ids looked up through the map, never references. */
module Morphology {

  /** One skeleton node; `kind` is the anatomical type (1 soma, 2 axon, 3 basal, 4 apical). */
  datatype Compartment = Compartment(
    id: int,
    parent: int,
    children: seq<int>,
    x: real, y: real, z: real,
    radius: real,
    kind: int)

  /** An RGB triple as the colour policies produce it. */
  datatype Rgb = Rgb(r: int, g: int, b: int)

  /** The parent id a root compartment carries. */
  const NoParent: int := -1

  /** `n` is the record the map holds under its own id. */
  predicate Member(cs: map<int, Compartment>, n: Compartment)
  {
    n.id in cs && cs[n.id] == n
  }

  /** A well-formed compartment forest: every record is stored under its own id, every present child
      names its parent back, and `rank` strictly decreases from a parent to each present child, which
      witnesses that there is no cycle. Child ids absent from the map are allowed: traversal skips
      them. */
  ghost predicate Forest(cs: map<int, Compartment>, rank: int -> nat)
  {
    && (forall k :: k in cs ==> cs[k].id == k)
    && (forall k, j :: k in cs && 0 <= j < |cs[k].children| && cs[k].children[j] in cs ==>
          rank(cs[k].children[j]) < rank(k) && cs[cs[k].children[j]].parent == k)
  }

  /** No children list names the same id twice (a child listed twice would be walked twice). */
  ghost predicate UniqueChildren(cs: map<int, Compartment>)
  {
    forall k, i, j :: k in cs && 0 <= i < j < |cs[k].children| ==> cs[k].children[i] != cs[k].children[j]
  }

  /** The compartments named by `ids` that exist in the map, in list order. */
  function PresentChildren(cs: map<int, Compartment>, ids: seq<int>): (r: seq<Compartment>)
    requires forall k :: k in cs ==> cs[k].id == k
    ensures |r| <= |ids|
    ensures forall i :: 0 <= i < |r| ==> Member(cs, r[i])
  {
    if ids == [] then []
    else
      var init := PresentChildren(cs, ids[..|ids| - 1]);
      var last := ids[|ids| - 1];
      assert forall j :: 0 <= j < |ids| - 1 ==> ids[..|ids| - 1][j] == ids[j];
      init + (if last in cs then [cs[last]] else [])
  }

  /** Each present child comes from the id list, at the same or a later position. */
  lemma {:induction false} PresentChildFrom(cs: map<int, Compartment>, ids: seq<int>, i: int)
    requires forall k :: k in cs ==> cs[k].id == k
    requires 0 <= i < |PresentChildren(cs, ids)|
    ensures exists j :: i <= j < |ids| && ids[j] == PresentChildren(cs, ids)[i].id
  {
    var init := ids[..|ids| - 1];
    var r0 := PresentChildren(cs, init);
    if i < |r0| {
      PresentChildFrom(cs, init, i);
      var j :| i <= j < |init| && init[j] == r0[i].id;
      assert ids[j] == init[j];
    } else {
      assert PresentChildren(cs, ids)[i].id == ids[|ids| - 1];
    }
  }
}
