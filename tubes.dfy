/** The per-cell geometry steps of the tube-making scripts: moving every compartment of a
    morphology by a transform (in place), and the apical-dendrite alignment of
    celltypes/make_tubes.py. */
module Tubes {
  import opened Morphology
  import opened Xform

  /** A transform numpy can apply to (x, y, z, 1): at least three rows of four entries. The
      registration transforms read from the specimen table have three rows, the alignment ones
      four; only the first three rows are used. */
  predicate PositionTransform(t: Matrix)
  {
    |t| >= 3 && forall i :: 0 <= i < |t| ==> |t[i]| == 4
  }

  /** A compartment after the loop body of `make_transformed_morphology` in
      celltypes/make_tubes.py: the position is transformed, the radius scaled. */
  function Moved(c: Compartment, t: Matrix, radiusScale: real): Compartment
    requires PositionTransform(t)
  {
    var p := Point(c.x, c.y, c.z);
    c.(x := Dot(t[0], p), y := Dot(t[1], p), z := Dot(t[2], p), radius := c.radius * radiusScale)
  }

  /** The same for make_tubes.py, which also converts micrometres to millimetres: position and
      radius are divided by 1000. */
  function MovedToMillimetres(c: Compartment, t: Matrix, radiusScale: real): Compartment
    requires PositionTransform(t)
  {
    var p := Point(c.x, c.y, c.z);
    c.(x := Dot(t[0], p) / 1000.0, y := Dot(t[1], p) / 1000.0, z := Dot(t[2], p) / 1000.0,
       radius := c.radius / 1000.0 * radiusScale)
  }

  /** `make_transformed_morphology` of celltypes/make_tubes.py: rewrites every compartment of the
      list in place. */
  method TransformMorphology(a: array<Compartment>, t: Matrix, radiusScale: real)
    requires PositionTransform(t)
    modifies a
    ensures forall i :: 0 <= i < a.Length ==> a[i] == Moved(old(a[i]), t, radiusScale)
  {
    var i := 0;
    while i < a.Length
      invariant 0 <= i <= a.Length
      invariant forall k :: 0 <= k < i ==> a[k] == Moved(old(a[k]), t, radiusScale)
      invariant forall k :: i <= k < a.Length ==> a[k] == old(a[k])
    {
      var c := a[i];
      var p := Point(c.x, c.y, c.z);
      a[i] := c.(x := Dot(t[0], p), y := Dot(t[1], p), z := Dot(t[2], p), radius := c.radius * radiusScale);
      i := i + 1;
    }
  }

  /** `make_transformed_morphology` of make_tubes.py: the same loop with the conversion to
      millimetres. */
  method TransformMorphologyToMillimetres(a: array<Compartment>, t: Matrix, radiusScale: real)
    requires PositionTransform(t)
    modifies a
    ensures forall i :: 0 <= i < a.Length ==> a[i] == MovedToMillimetres(old(a[i]), t, radiusScale)
  {
    var i := 0;
    while i < a.Length
      invariant 0 <= i <= a.Length
      invariant forall k :: 0 <= k < i ==> a[k] == MovedToMillimetres(old(a[k]), t, radiusScale)
      invariant forall k :: i <= k < a.Length ==> a[k] == old(a[k])
    {
      var c := a[i];
      var p := Point(c.x, c.y, c.z);
      a[i] := c.(x := Dot(t[0], p) / 1000.0, y := Dot(t[1], p) / 1000.0, z := Dot(t[2], p) / 1000.0,
                 radius := c.radius / 1000.0 * radiusScale);
      i := i + 1;
    }
  }

  /** Only position and radius change: id, parent, children and type are kept, so the tree is the
      same tree. */
  lemma MovedKeepsTree(c: Compartment, t: Matrix, radiusScale: real)
    requires PositionTransform(t)
    ensures var d := Moved(c, t, radiusScale);
      d.id == c.id && d.parent == c.parent && d.children == c.children && d.kind == c.kind
    ensures var d := MovedToMillimetres(c, t, radiusScale);
      d.id == c.id && d.parent == c.parent && d.children == c.children && d.kind == c.kind
  {
  }

  /** For a 4x4 affine transform the new position is the transform applied to the homogeneous
      old position. */
  lemma MovedIsApply(c: Compartment, t: Matrix, radiusScale: real)
    requires Affine(t)
    ensures var d := Moved(c, t, radiusScale); Apply(t, Point(c.x, c.y, c.z)) == Point(d.x, d.y, d.z)
  {
    var q := Apply(t, Point(c.x, c.y, c.z));
    assert q[3] == 1.0;
  }

  /** The millimetre variant is the plain one with position and radius divided by 1000. */
  lemma MillimetresIsThousandth(c: Compartment, t: Matrix, radiusScale: real)
    requires PositionTransform(t)
    ensures var d, e := MovedToMillimetres(c, t, radiusScale), Moved(c, t, radiusScale);
      d == e.(x := e.x / 1000.0, y := e.y / 1000.0, z := e.z / 1000.0, radius := e.radius / 1000.0)
  {
  }

  /** The identity transform with unit scale leaves a compartment as it was. */
  lemma MovedIdentity(c: Compartment)
    ensures Moved(c, Identity, 1.0) == c
  {
  }

  /** Moving twice is moving once by the product of the transforms, with the product of the
      scales. */
  lemma MovedTwice(c: Compartment, t1: Matrix, t2: Matrix, s1: real, s2: real)
    requires Affine(t1) && Affine(t2)
    ensures Moved(Moved(c, t1, s1), t2, s2) == Moved(c, Mul(t2, t1), s1 * s2)
  {
    var p := Point(c.x, c.y, c.z);
    var m := Mul(t2, t1);
    var q := Point(Dot(t1[0], p), Dot(t1[1], p), Dot(t1[2], p));
    forall i | 0 <= i < 3 ensures Dot(t2[i], q) == Dot(m[i], p) {
      DotAssociates(t2[i], t1, p);
      assert m[i] == [Dot(t2[i], Column(t1, 0)), Dot(t2[i], Column(t1, 1)), Dot(t2[i], Column(t1, 2)), Dot(t2[i], Column(t1, 3))];
    }
  }

  /** Row r of t2 applied to t1 . p equals row r of t2 . t1 applied to p, for an affine t1. */
  lemma DotAssociates(r: seq<real>, t1: Matrix, p: seq<real>)
    requires |r| == 4 && Affine(t1) && |p| == 4 && p[3] == 1.0
    ensures Dot(r, [Dot(t1[0], p), Dot(t1[1], p), Dot(t1[2], p), 1.0])
         == Dot([Dot(r, Column(t1, 0)), Dot(r, Column(t1, 1)), Dot(r, Column(t1, 2)), Dot(r, Column(t1, 3))], p)
  {
    var a, b, c := t1[0], t1[1], t1[2];
    calc {
      Dot(r, [Dot(a, p), Dot(b, p), Dot(c, p), 1.0]);
      r[0] * (a[0] * p[0] + a[1] * p[1] + a[2] * p[2] + a[3] * p[3])
        + r[1] * (b[0] * p[0] + b[1] * p[1] + b[2] * p[2] + b[3] * p[3])
        + r[2] * (c[0] * p[0] + c[1] * p[1] + c[2] * p[2] + c[3] * p[3])
        + r[3] * 1.0;
      (r[0] * a[0] + r[1] * b[0] + r[2] * c[0] + r[3] * 0.0) * p[0]
        + (r[0] * a[1] + r[1] * b[1] + r[2] * c[1] + r[3] * 0.0) * p[1]
        + (r[0] * a[2] + r[1] * b[2] + r[2] * c[2] + r[3] * 0.0) * p[2]
        + (r[0] * a[3] + r[1] * b[3] + r[2] * c[3] + r[3] * 1.0) * p[3];
    }
  }

  /** Some compartment has type 4 (apical dendrite). */
  predicate HasApical(cs: seq<Compartment>)
  {
    exists i :: 0 <= i < |cs| && cs[i].kind == 4
  }

  /** `align_apical_dendrite`: the identity without apical compartments; otherwise the rotation
      about the soma, translate-to-origin, rotate about x, translate back. The fitted angle is
      overwritten with 0 before use, so the rotation gets cos 0 = 1 and sin 0 = 0. The regression
      that fitted it is not modelled: its result is discarded. */
  function AlignApicalDendrite(cs: seq<Compartment>, soma: Compartment): (m: Matrix)
  {
    if !HasApical(cs) then Identity
    else
      var t1 := Translate3(-soma.x, -soma.y, -soma.z);
      var r := Rotate3x(1.0, 0.0);
      var t2 := Translate3(soma.x, soma.y, soma.z);
      Mul(Mul(t2, r), t1)
  }

  /** Because the angle is forced to 0, the alignment is always the identity, with or without
      apical compartments. */
  lemma AlignIsIdentity(cs: seq<Compartment>, soma: Compartment)
    ensures AlignApicalDendrite(cs, soma) == Identity
  {
    if HasApical(cs) {
      var t2 := Translate3(soma.x, soma.y, soma.z);
      IdentityCases();
      IdentityUnit(t2);
      TranslateInverse(soma.x, soma.y, soma.z);
    }
  }

  /** Moving a morphology by the alignment with unit scale leaves every compartment unchanged. */
  lemma AlignedMoveIsNoOp(cs: seq<Compartment>, soma: Compartment, c: Compartment)
    ensures Moved(c, AlignApicalDendrite(cs, soma), 1.0) == c
  {
    AlignIsIdentity(cs, soma);
    MovedIdentity(c);
  }
}
