/** Homogeneous 4x4 transforms for 3-D points: scale, translate and the three axis rotations.
    A rotation builder takes the cosine and sine of its angle rather than the angle, since the
    trigonometric functions are not modelled. */
module Xform {

  /** A matrix as a sequence of rows. */
  type Matrix = seq<seq<real>>

  /** Four rows of four entries each. */
  predicate Is4x4(m: Matrix)
  {
    |m| == 4 && forall i :: 0 <= i < 4 ==> |m[i]| == 4
  }

  /** An affine transform: 4x4 with bottom row [0, 0, 0, 1], so the w coordinate is kept. */
  predicate Affine(m: Matrix)
  {
    Is4x4(m) && m[3] == [0.0, 0.0, 0.0, 1.0]
  }

  /** The dot product of two 4-vectors. */
  function Dot(a: seq<real>, b: seq<real>): real
    requires |a| == 4 && |b| == 4
  {
    a[0] * b[0] + a[1] * b[1] + a[2] * b[2] + a[3] * b[3]
  }

  /** Column `j` of a 4x4 matrix. */
  function Column(m: Matrix, j: int): (c: seq<real>)
    requires Is4x4(m) && 0 <= j < 4
    ensures |c| == 4 && forall i :: 0 <= i < 4 ==> c[i] == m[i][j]
  {
    [m[0][j], m[1][j], m[2][j], m[3][j]]
  }

  /** The matrix-vector product `m . p` (numpy's `dot` of a matrix and a vector). */
  function Apply(m: Matrix, p: seq<real>): (q: seq<real>)
    requires Is4x4(m) && |p| == 4
    ensures |q| == 4 && forall i :: 0 <= i < 4 ==> q[i] == Dot(m[i], p)
  {
    [Dot(m[0], p), Dot(m[1], p), Dot(m[2], p), Dot(m[3], p)]
  }

  /** Row `i` of the matrix product `a . b`. */
  function ProductRow(a: Matrix, b: Matrix, i: int): (r: seq<real>)
    requires Is4x4(a) && Is4x4(b) && 0 <= i < 4
    ensures |r| == 4 && forall j :: 0 <= j < 4 ==> r[j] == Dot(a[i], Column(b, j))
  {
    [Dot(a[i], Column(b, 0)), Dot(a[i], Column(b, 1)), Dot(a[i], Column(b, 2)), Dot(a[i], Column(b, 3))]
  }

  /** The matrix product `a . b`. */
  function Mul(a: Matrix, b: Matrix): (c: Matrix)
    requires Is4x4(a) && Is4x4(b)
    ensures Is4x4(c)
    ensures forall i, j :: 0 <= i < 4 && 0 <= j < 4 ==> c[i][j] == Dot(a[i], Column(b, j))
  {
    [ProductRow(a, b, 0), ProductRow(a, b, 1), ProductRow(a, b, 2), ProductRow(a, b, 3)]
  }

  /** The homogeneous point (x, y, z, 1). */
  function Point(x: real, y: real, z: real): seq<real>
  {
    [x, y, z, 1.0]
  }

  const Identity: Matrix := [[1.0, 0.0, 0.0, 0.0],
                             [0.0, 1.0, 0.0, 0.0],
                             [0.0, 0.0, 1.0, 0.0],
                             [0.0, 0.0, 0.0, 1.0]]

  /** `scale3(x, y, z)`: a diagonal matrix. */
  function Scale3(x: real, y: real, z: real): Matrix
  {
    [[x, 0.0, 0.0, 0.0],
     [0.0, y, 0.0, 0.0],
     [0.0, 0.0, z, 0.0],
     [0.0, 0.0, 0.0, 1.0]]
  }

  /** `translate3(x, y, z)`: the identity with the offset in the last column. */
  function Translate3(x: real, y: real, z: real): Matrix
  {
    [[1.0, 0.0, 0.0, x],
     [0.0, 1.0, 0.0, y],
     [0.0, 0.0, 1.0, z],
     [0.0, 0.0, 0.0, 1.0]]
  }

  /** `rotate3x` for an angle with cosine `c` and sine `s`. */
  function Rotate3x(c: real, s: real): Matrix
  {
    [[1.0, 0.0, 0.0, 0.0],
     [0.0, c, s, 0.0],
     [0.0, -s, c, 0.0],
     [0.0, 0.0, 0.0, 1.0]]
  }

  /** `rotate3y` for an angle with cosine `c` and sine `s`. */
  function Rotate3y(c: real, s: real): Matrix
  {
    [[c, 0.0, s, 0.0],
     [0.0, 1.0, 0.0, 0.0],
     [-s, 0.0, c, 0.0],
     [0.0, 0.0, 0.0, 1.0]]
  }

  /** `rotate3z` for an angle with cosine `c` and sine `s`. */
  function Rotate3z(c: real, s: real): Matrix
  {
    [[c, s, 0.0, 0.0],
     [-s, c, 0.0, 0.0],
     [0.0, 0.0, 1.0, 0.0],
     [0.0, 0.0, 0.0, 1.0]]
  }

  /** Every builder yields an affine 4x4 matrix: a point keeps w = 1. */
  lemma BuildersAffine(x: real, y: real, z: real, c: real, s: real)
    ensures Affine(Scale3(x, y, z)) && Affine(Translate3(x, y, z))
    ensures Affine(Rotate3x(c, s)) && Affine(Rotate3y(c, s)) && Affine(Rotate3z(c, s))
    ensures Affine(Identity)
  {
  }

  /** An affine matrix maps a point with w = 1 to a point with w = 1. */
  lemma AffineKeepsW(m: Matrix, x: real, y: real, z: real)
    requires Affine(m)
    ensures Apply(m, Point(x, y, z))[3] == 1.0
  {
  }

  /** `scale3` multiplies each coordinate by its factor. */
  lemma ScaleAction(x: real, y: real, z: real, px: real, py: real, pz: real)
    ensures Apply(Scale3(x, y, z), Point(px, py, pz)) == Point(x * px, y * py, z * pz)
  {
    var q := Apply(Scale3(x, y, z), Point(px, py, pz));
    assert q[0] == x * px && q[1] == y * py && q[2] == z * pz && q[3] == 1.0;
  }

  /** `translate3` adds its offset to a point. */
  lemma TranslateAction(x: real, y: real, z: real, px: real, py: real, pz: real)
    ensures Apply(Translate3(x, y, z), Point(px, py, pz)) == Point(px + x, py + y, pz + z)
  {
  }

  /** The identity matrix is the unit of the matrix product. */
  lemma IdentityUnit(m: Matrix)
    requires Is4x4(m)
    ensures Mul(Identity, m) == m && Mul(m, Identity) == m
  {
    var l, r := Mul(Identity, m), Mul(m, Identity);
    forall i | 0 <= i < 4 ensures l[i] == m[i] && r[i] == m[i] {
      assert l[i][0] == m[i][0] && l[i][1] == m[i][1] && l[i][2] == m[i][2] && l[i][3] == m[i][3];
      assert r[i][0] == m[i][0] && r[i][1] == m[i][1] && r[i][2] == m[i][2] && r[i][3] == m[i][3];
    }
  }

  /** Translating by an offset and then by its negation is the identity, in either order. */
  lemma TranslateInverse(a: real, b: real, c: real)
    ensures Mul(Translate3(a, b, c), Translate3(-a, -b, -c)) == Identity
    ensures Mul(Translate3(-a, -b, -c), Translate3(a, b, c)) == Identity
  {
    var p, q := Mul(Translate3(a, b, c), Translate3(-a, -b, -c)), Mul(Translate3(-a, -b, -c), Translate3(a, b, c));
    forall i | 0 <= i < 4 ensures p[i] == Identity[i] && q[i] == Identity[i] {
      assert p[i][0] == Identity[i][0] && p[i][1] == Identity[i][1];
      assert p[i][2] == Identity[i][2] && p[i][3] == Identity[i][3];
      assert q[i][0] == Identity[i][0] && q[i][1] == Identity[i][1];
      assert q[i][2] == Identity[i][2] && q[i][3] == Identity[i][3];
    }
  }

  /** Each rotation leaves the coordinate of its own axis and w unchanged. */
  lemma RotationsFixAxis(c: real, s: real, px: real, py: real, pz: real)
    ensures var q := Apply(Rotate3x(c, s), Point(px, py, pz)); q[0] == px && q[3] == 1.0
    ensures var q := Apply(Rotate3y(c, s), Point(px, py, pz)); q[1] == py && q[3] == 1.0
    ensures var q := Apply(Rotate3z(c, s), Point(px, py, pz)); q[2] == pz && q[3] == 1.0
  {
  }

  /** A rotation by an angle with cos^2 + sin^2 = 1 keeps the distance of a point from the origin. */
  lemma RotationsKeepLength(c: real, s: real, px: real, py: real, pz: real)
    requires c * c + s * s == 1.0
    ensures var q := Apply(Rotate3x(c, s), Point(px, py, pz));
      q[0] * q[0] + q[1] * q[1] + q[2] * q[2] == px * px + py * py + pz * pz
    ensures var q := Apply(Rotate3y(c, s), Point(px, py, pz));
      q[0] * q[0] + q[1] * q[1] + q[2] * q[2] == px * px + py * py + pz * pz
    ensures var q := Apply(Rotate3z(c, s), Point(px, py, pz));
      q[0] * q[0] + q[1] * q[1] + q[2] * q[2] == px * px + py * py + pz * pz
  {
    SumOfSquaresRotated(c, s, py, pz);
    SumOfSquaresRotated(c, s, pz, px);
    SumOfSquaresRotated(c, s, px, py);
    var qx := Apply(Rotate3x(c, s), Point(px, py, pz));
    assert qx[0] == px && qx[1] == c * py + s * pz && qx[2] == -s * py + c * pz;
    var qy := Apply(Rotate3y(c, s), Point(px, py, pz));
    assert qy[0] == c * px + s * pz && qy[1] == py && qy[2] == -s * px + c * pz;
    var qz := Apply(Rotate3z(c, s), Point(px, py, pz));
    assert qz[0] == c * px + s * py && qz[1] == -s * px + c * py && qz[2] == pz;
  }

  /** The planar step of RotationsKeepLength. */
  lemma SumOfSquaresRotated(c: real, s: real, u: real, v: real)
    requires c * c + s * s == 1.0
    ensures (c * u + s * v) * (c * u + s * v) + (-s * u + c * v) * (-s * u + c * v) == u * u + v * v
    ensures (c * v + s * u) * (c * v + s * u) + (-s * v + c * u) * (-s * v + c * u) == u * u + v * v
  {
    calc {
      (c * u + s * v) * (c * u + s * v) + (-s * u + c * v) * (-s * u + c * v);
      (c * c + s * s) * (u * u) + (c * c + s * s) * (v * v);
      u * u + v * v;
    }
    calc {
      (c * v + s * u) * (c * v + s * u) + (-s * v + c * u) * (-s * v + c * u);
      (c * c + s * s) * (v * v) + (c * c + s * s) * (u * u);
      u * u + v * v;
    }
  }

  /** With cosine 1 and sine 0 (a zero angle) every rotation is the identity; so are the unit
      scale and the zero translation. */
  lemma IdentityCases()
    ensures Rotate3x(1.0, 0.0) == Identity && Rotate3y(1.0, 0.0) == Identity && Rotate3z(1.0, 0.0) == Identity
    ensures Scale3(1.0, 1.0, 1.0) == Identity && Translate3(0.0, 0.0, 0.0) == Identity
  {
  }

  /** The identity maps every point to itself. */
  lemma IdentityAction(p: seq<real>)
    requires |p| == 4
    ensures Apply(Identity, p) == p
  {
  }
}
