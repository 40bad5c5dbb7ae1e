/** The projection-line builder of vtkconn.py (`build_vtk`): every sample of every line becomes a
    point with its density as radius, and every line one cell listing its points' ids. */
module Conn {
  import opened PolyData

  /** One sample of a projection line: a position and the density there (the row x, y, z, density). */
  datatype Sample = Sample(x: real, y: real, z: real, density: real)

  /** The point set, the radius array and the cell array `build_vtk` fills. */
  datatype LineSet = LineSet(points: seq<Point3>, radii: seq<real>, cells: seq<seq<int>>)

  function SamplePoint(v: Sample): Point3
  {
    Point3(v.x, v.y, v.z)
  }

  /** The total number of samples. */
  function SampleCount(lines: seq<seq<Sample>>): (n: nat)
  {
    if lines == [] then 0 else SampleCount(lines[..|lines| - 1]) + |lines[|lines| - 1]|
  }

  /** The positions of one line's samples, in order. */
  function LinePoints(line: seq<Sample>): (ps: seq<Point3>)
    ensures |ps| == |line| && forall i :: 0 <= i < |line| ==> ps[i] == SamplePoint(line[i])
  {
    seq(|line|, i requires 0 <= i < |line| => SamplePoint(line[i]))
  }

  /** The densities of one line's samples, in order. */
  function LineRadii(line: seq<Sample>): (rs: seq<real>)
    ensures |rs| == |line| && forall i :: 0 <= i < |line| ==> rs[i] == line[i].density
  {
    seq(|line|, i requires 0 <= i < |line| => line[i].density)
  }

  /** Every sample's position, line after line. */
  function Points(lines: seq<seq<Sample>>): (ps: seq<Point3>)
    ensures |ps| == SampleCount(lines)
  {
    if lines == [] then [] else Points(lines[..|lines| - 1]) + LinePoints(lines[|lines| - 1])
  }

  /** Every sample's density, line after line. */
  function Radii(lines: seq<seq<Sample>>): (rs: seq<real>)
    ensures |rs| == SampleCount(lines)
  {
    if lines == [] then [] else Radii(lines[..|lines| - 1]) + LineRadii(lines[|lines| - 1])
  }

  /** One cell per line holding the consecutive ids of that line's points. */
  function Cells(lines: seq<seq<Sample>>): (cs: seq<seq<int>>)
    ensures |cs| == |lines|
  {
    if lines == [] then []
    else
      var init := lines[..|lines| - 1];
      Cells(init) + [Range(SampleCount(init), SampleCount(lines))]
  }

  /** `build_vtk(lines)`. */
  method BuildVtk(lines: seq<seq<Sample>>) returns (out: LineSet)
    ensures out == LineSet(Points(lines), Radii(lines), Cells(lines))
  {
    var points: seq<Point3> := [];
    var radii: seq<real> := [];
    var cells: seq<seq<int>> := [];
    var k := 0;
    while k < |lines|
      invariant 0 <= k <= |lines|
      invariant points == Points(lines[..k]) && radii == Radii(lines[..k]) && cells == Cells(lines[..k])
    {
      var line := lines[k];
      var linePids;
      points, radii, linePids := InsertSamples(points, radii, line);
      var cell := InsertCell(linePids);
      cells := cells + [cell];
      assert lines[..k + 1][..k] == lines[..k] && lines[..k + 1][k] == line;
      k := k + 1;
    }
    assert lines[..|lines|] == lines;
    out := LineSet(points, radii, cells);
  }

  /** The inner loop over one line's samples: each becomes the next point, its density the next
      radius, and its point id is collected. */
  method InsertSamples(points: seq<Point3>, radii: seq<real>, line: seq<Sample>)
    returns (points': seq<Point3>, radii': seq<real>, linePids: seq<int>)
    ensures points' == points + LinePoints(line) && radii' == radii + LineRadii(line)
    ensures linePids == Range(|points|, |points| + |line|)
  {
    points', radii', linePids := points, radii, [];
    var j := 0;
    while j < |line|
      invariant 0 <= j <= |line|
      invariant points' == points + LinePoints(line[..j]) && radii' == radii + LineRadii(line[..j])
      invariant linePids == Range(|points|, |points| + j)
    {
      var pid := |points'|;
      points' := points' + [SamplePoint(line[j])];
      radii' := radii' + [line[j].density];
      linePids := linePids + [pid];
      assert line[..j + 1] == line[..j] + [line[j]];
      j := j + 1;
    }
    assert line[..|line|] == line;
  }

  /** The cell of one line: its collected point ids, copied in order. */
  method InsertCell(linePids: seq<int>) returns (cell: seq<int>)
    ensures cell == linePids
  {
    cell := [];
    var m := 0;
    while m < |linePids|
      invariant 0 <= m <= |linePids| && cell == linePids[..m]
    {
      cell := cell + [linePids[m]];
      assert linePids[..m + 1] == linePids[..m] + [linePids[m]];
      m := m + 1;
    }
    assert linePids[..|linePids|] == linePids;
  }

  /** The samples of the lines before line k: where line k's points start. */
  function Offset(lines: seq<seq<Sample>>, k: int): nat
    requires 0 <= k <= |lines|
  {
    SampleCount(lines[..k])
  }

  /** Offsets grow by each line's length and never pass the total. */
  lemma {:induction false} OffsetBounds(lines: seq<seq<Sample>>, k: int)
    requires 0 <= k < |lines|
    ensures Offset(lines, k + 1) == Offset(lines, k) + |lines[k]|
    ensures Offset(lines, k + 1) <= SampleCount(lines)
    decreases |lines|
  {
    assert lines[..k + 1][..k] == lines[..k];
    if k + 1 < |lines| {
      var init := lines[..|lines| - 1];
      assert init[..k + 1] == lines[..k + 1] && init[..k] == lines[..k] && init[k] == lines[k];
      OffsetBounds(init, k);
    } else {
      assert lines[..k + 1] == lines;
    }
  }

  /** Cell k lists the ids Offset(k) .. Offset(k) + |line k| - 1, and point Offset(k) + i is sample i
      of line k, with that sample's density as its radius. So the cells are consecutive runs, start
      where the previous line ended, and no two cells share a point. */
  lemma CellAddressesItsLine(lines: seq<seq<Sample>>, k: int)
    requires 0 <= k < |lines|
    ensures Cells(lines)[k] == Range(Offset(lines, k), Offset(lines, k) + |lines[k]|)
    ensures forall i :: 0 <= i < |lines[k]| ==>
      Offset(lines, k) + i < SampleCount(lines)
      && Points(lines)[Offset(lines, k) + i] == SamplePoint(lines[k][i])
      && Radii(lines)[Offset(lines, k) + i] == lines[k][i].density
  {
    CellOfLine(lines, k);
    OffsetBounds(lines, k);
    forall i | 0 <= i < |lines[k]|
      ensures Points(lines)[Offset(lines, k) + i] == SamplePoint(lines[k][i])
      ensures Radii(lines)[Offset(lines, k) + i] == lines[k][i].density
    {
      SampleOfLine(lines, k, i);
    }
  }

  /** Cell k lists the ids Offset(k) .. Offset(k) + |line k| - 1. */
  lemma {:induction false} CellOfLine(lines: seq<seq<Sample>>, k: int)
    requires 0 <= k < |lines|
    ensures Cells(lines)[k] == Range(Offset(lines, k), Offset(lines, k) + |lines[k]|)
    decreases |lines|
  {
    var n := |lines| - 1;
    var init := lines[..n];
    OffsetBounds(lines, k);
    LastLine(lines);
    if k < n {
      assert init[..k] == lines[..k] && init[k] == lines[k];
      CellOfLine(init, k);
    } else {
      assert lines[..k] == init;
    }
  }

  /** Point Offset(k) + i is sample i of line k, with that sample's density as its radius. */
  lemma {:induction false} SampleOfLine(lines: seq<seq<Sample>>, k: int, i: int)
    requires 0 <= k < |lines| && 0 <= i < |lines[k]|
    ensures Offset(lines, k) + i < SampleCount(lines)
    ensures Points(lines)[Offset(lines, k) + i] == SamplePoint(lines[k][i])
    ensures Radii(lines)[Offset(lines, k) + i] == lines[k][i].density
    decreases |lines|
  {
    var n := |lines| - 1;
    var init := lines[..n];
    OffsetBounds(lines, k);
    LastLine(lines);
    if k < n {
      assert init[..k] == lines[..k] && init[k] == lines[k];
      OffsetBounds(init, k);
      SampleOfLine(init, k, i);
    } else {
      assert lines[..k] == init;
    }
  }

  /** The arrays for all lines extend those for all but the last line with the last line's
      samples and cell. */
  lemma LastLine(lines: seq<seq<Sample>>)
    requires |lines| > 0
    ensures var init := lines[..|lines| - 1];
      && Points(lines) == Points(init) + LinePoints(lines[|lines| - 1])
      && Radii(lines) == Radii(init) + LineRadii(lines[|lines| - 1])
      && Cells(lines) == Cells(init) + [Range(SampleCount(init), SampleCount(lines))]
  {
  }

  /** Two different lines' cells share no point id. */
  lemma CellsDisjoint(lines: seq<seq<Sample>>, k1: int, k2: int, i1: int, i2: int)
    requires 0 <= k1 < k2 < |lines|
    requires 0 <= i1 < |Cells(lines)[k1]| && 0 <= i2 < |Cells(lines)[k2]|
    ensures Cells(lines)[k1][i1] < Cells(lines)[k2][i2]
  {
    CellAddressesItsLine(lines, k1);
    CellAddressesItsLine(lines, k2);
    OffsetMonotone(lines, k1 + 1, k2);
    OffsetBounds(lines, k1);
  }

  /** Offsets never decrease along the lines. */
  lemma {:induction false} OffsetMonotone(lines: seq<seq<Sample>>, a: int, b: int)
    requires 0 <= a <= b <= |lines|
    ensures Offset(lines, a) <= Offset(lines, b)
    decreases b - a
  {
    if a < b {
      OffsetBounds(lines, a);
      OffsetMonotone(lines, a + 1, b);
    }
  }
}
