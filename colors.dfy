/** The colour policies of the two tube-making scripts (the copies in make_tubes.py and
    celltypes/make_tubes.py are identical): a categorical palette, a clamped three-stop heat map
    over a numeric attribute, and a fixed table by compartment type. */
module Colors {
  import opened Morphology
  import opened Wrappers

  // ---------------------------------------------------------------- categories

  /** The ten palette entries, handed out by enumeration position. */
  const Palette: seq<Rgb> := [
    Rgb(31, 119, 180), Rgb(255, 157, 14), Rgb(44, 160, 44), Rgb(214, 39, 40), Rgb(148, 103, 189),
    Rgb(140, 86, 75), Rgb(227, 119, 194), Rgb(127, 127, 127), Rgb(188, 189, 34), Rgb(23, 190, 207)]

  /** No two palette entries are equal. */
  lemma PaletteDistinct()
    ensures |Palette| == 10
    ensures forall i, j :: 0 <= i < j < |Palette| ==> Palette[i] != Palette[j]
  {
  }

  /** A category value: the `cre_line` text of a specimen. */
  type Category = string

  /** `order` lists the distinct values of `values` once each: it is the enumeration order of
      `set(values)`, which the language leaves unspecified. */
  ghost predicate EnumeratesSet(order: seq<Category>, values: seq<Category>)
  {
    && (forall i, j :: 0 <= i < j < |order| ==> order[i] != order[j])
    && (forall x :: x in order <==> x in values)
  }

  /** The dict comprehension for the first `|order|` categories: category `order[i]` gets
      `Palette[i]`. */
  function AssignPalette(order: seq<Category>): (m: map<Category, Rgb>)
    requires |order| <= |Palette|
    ensures m.Keys == set x | x in order
  {
    if order == [] then map[]
    else AssignPalette(order[..|order| - 1])[order[|order| - 1] := Palette[|order| - 1]]
  }

  /** `color_by_category`: `values` are the specimens' category values, `order` the enumeration
      of their set. More than ten categories index past the palette, which is an error (None). */
  function ColorByCategory(values: seq<Category>, order: seq<Category>): (r: Option<map<Category, Rgb>>)
    requires EnumeratesSet(order, values)
  {
    if |order| <= |Palette| then Some(AssignPalette(order)) else None
  }

  /** The comprehension gives every enumerated category the palette entry at its position. */
  lemma {:induction false} AssignPaletteAt(order: seq<Category>, i: int)
    requires |order| <= |Palette|
    requires forall a, b :: 0 <= a < b < |order| ==> order[a] != order[b]
    requires 0 <= i < |order|
    ensures AssignPalette(order)[order[i]] == Palette[i]
  {
    var n := |order| - 1;
    if i < n {
      var init := order[..n];
      assert init[i] == order[i];
      AssignPaletteAt(init, i);
      assert order[i] != order[n];
    }
  }

  /** Every category gets the palette entry at its enumeration position, so distinct categories get
      distinct colours; the result covers exactly the categories present; it fails exactly when
      there are more than ten. */
  lemma ColorByCategorySpec(values: seq<Category>, order: seq<Category>)
    requires EnumeratesSet(order, values)
    ensures ColorByCategory(values, order).None? <==> |order| > 10
    ensures ColorByCategory(values, order).Some? ==>
      var m := ColorByCategory(values, order).value;
      && (forall x :: x in m <==> x in values)
      && (forall i :: 0 <= i < |order| ==> m[order[i]] == Palette[i])
      && (forall x, y :: x in m && y in m && x != y ==> m[x] != m[y])
  {
    PaletteDistinct();
    if |order| <= |Palette| {
      var m := AssignPalette(order);
      forall i | 0 <= i < |order| ensures m[order[i]] == Palette[i] {
        AssignPaletteAt(order, i);
      }
      forall x, y | x in m && y in m && x != y ensures m[x] != m[y] {
        var i :| 0 <= i < |order| && order[i] == x;
        var j :| 0 <= j < |order| && order[j] == y;
        assert i != j;
        if i < j { assert Palette[i] != Palette[j]; } else { assert Palette[j] != Palette[i]; }
      }
    }
  }

  // ---------------------------------------------------------------- heat map

  /** One stop of the ramp: position in [0, 1] and its colour channels. */
  datatype Stop = Stop(at: real, r: int, g: int, b: int)

  /** Red at 0, yellow at 0.66, white at 1. */
  const HotStops: seq<Stop> := [Stop(0.0, 255, 0, 0), Stop(0.66, 255, 255, 0), Stop(1.0, 255, 255, 255)]

  /** What `hotmap` returns: a colour, `None` when no bracket matched, or the index error raised by
      reading the stop after the last one. */
  datatype Shade = Shade(rgb: Rgb) | NoShade | StopIndexError

  /** The statistics `color_by_value` needs: the window is two standard deviations around the
      mean, cut to the data range. Mean and standard deviation are inputs (numpy's routines are
      not modelled); the minimum and maximum are computed. */
  function Minimum(values: seq<real>): (m: real)
    requires |values| > 0
    ensures forall i :: 0 <= i < |values| ==> m <= values[i]
    ensures exists i :: 0 <= i < |values| && m == values[i]
  {
    if |values| == 1 then values[0]
    else
      var m0 := Minimum(values[..|values| - 1]);
      assert forall i :: 0 <= i < |values| - 1 ==> values[..|values| - 1][i] == values[i];
      if values[|values| - 1] < m0 then values[|values| - 1] else m0
  }

  function Maximum(values: seq<real>): (m: real)
    requires |values| > 0
    ensures forall i :: 0 <= i < |values| ==> values[i] <= m
    ensures exists i :: 0 <= i < |values| && m == values[i]
  {
    if |values| == 1 then values[0]
    else
      var m0 := Maximum(values[..|values| - 1]);
      assert forall i :: 0 <= i < |values| - 1 ==> values[..|values| - 1][i] == values[i];
      if values[|values| - 1] > m0 then values[|values| - 1] else m0
  }

  /** The clamp window (vmin, vmax) of `color_by_value`; None for no values (numpy's `min` of an
      empty array raises). */
  function ColorWindow(values: seq<real>, mean: real, std: real): (w: Option<(real, real)>)
    ensures w.Some? <==> |values| > 0
    ensures w.Some? ==> Minimum(values) <= w.value.0 && w.value.1 <= Maximum(values)
  {
    if |values| == 0 then None
    else Some((Max(mean - 2.0 * std, Minimum(values)), Min(mean + 2.0 * std, Maximum(values))))
  }

  /** With a mean inside the data range and a non-negative deviation the window is not inverted. */
  lemma ColorWindowOrdered(values: seq<real>, mean: real, std: real)
    requires |values| > 0 && Minimum(values) <= mean <= Maximum(values) && std >= 0.0
    ensures ColorWindow(values, mean, std).value.0 <= ColorWindow(values, mean, std).value.1
  {
  }

  /** `min(max(t, 0), 1)`. */
  function Clamp01(t: real): (c: real)
    ensures 0.0 <= c <= 1.0
    ensures 0.0 <= t <= 1.0 ==> c == t
    ensures t < 0.0 ==> c == 0.0
    ensures t > 1.0 ==> c == 1.0
  {
    Min(Max(t, 0.0), 1.0)
  }

  /** The clamped ramp position of `v`. When vmax == vmin the division is by zero: numpy gives
      +inf or -inf, clamped to 1 or 0, and 0/0 gives NaN, which clamping keeps and every comparison
      rejects; None stands for that NaN. */
  function RampPosition(v: real, vmin: real, vmax: real): (t: Option<real>)
    ensures t.Some? ==> 0.0 <= t.value <= 1.0
    ensures t.None? <==> vmin == vmax == v
  {
    if vmax != vmin then Some(Clamp01((v - vmin) / (vmax - vmin)))
    else if v > vmin then Some(1.0)
    else if v < vmin then Some(0.0)
    else None
  }

  /** `int(math.floor((1 - tt) * a + tt * b))`. */
  function Lerp(a: int, b: int, tt: real): int
  {
    ((1.0 - tt) * a as real + tt * b as real).Floor
  }

  /** The colour between stops `s0` and `s1` at ramp position `t`. */
  function Interpolate(s0: Stop, s1: Stop, t: real): Rgb
    requires s0.at < s1.at
  {
    var tt := (t - s0.at) / (s1.at - s0.at);
    Rgb(Lerp(s0.r, s1.r, tt), Lerp(s0.g, s1.g, tt), Lerp(s0.b, s1.b, tt))
  }

  /** The loop `for i in xrange(3)` from index `i` on: the first stop pair that brackets `t` gives
      the colour; reading `colors[3]` when `t` passes the test on the last stop is an index error. */
  function Bracket(t: real, i: nat): Shade
    requires i <= 3
    decreases 3 - i
  {
    if i == 3 then NoShade
    else if t >= HotStops[i].at then
      if i + 1 == |HotStops| then StopIndexError
      else if t <= HotStops[i + 1].at then Shade(Interpolate(HotStops[i], HotStops[i + 1], t))
      else Bracket(t, i + 1)
    else Bracket(t, i + 1)
  }

  /** `hotmap(v)` for the window (vmin, vmax). */
  function Hotmap(v: real, vmin: real, vmax: real): Shade
  {
    match RampPosition(v, vmin, vmax)
    case None => NoShade
    case Some(t) => Bracket(t, 0)
  }

  /** The green channel of the ramp at position t: rising to 255 on the first segment, then 255. */
  function RampGreen(t: real): int
  {
    if t <= 0.66 then (255.0 * (t / 0.66)).Floor else 255
  }

  /** The blue channel of the ramp at position t: 0 on the first segment, then rising to 255. */
  function RampBlue(t: real): int
  {
    if t <= 0.66 then 0 else (255.0 * ((t - 0.66) / 0.34)).Floor
  }

  /** Inside [0, 1] the loop always brackets t at i = 0 or i = 1: the colour is red 255 with the
      ramp's green and blue, never None and never the index error. */
  lemma BracketRamp(t: real)
    requires 0.0 <= t <= 1.0
    ensures Bracket(t, 0) == Shade(Rgb(255, RampGreen(t), RampBlue(t)))
  {
    if t <= 0.66 {
      var tt := t / 0.66;
      assert (1.0 - tt) * 255.0 + tt * 255.0 == 255.0;
      assert (1.0 - tt) * 0.0 + tt * 255.0 == 255.0 * (t / 0.66);
      assert (1.0 - tt) * 0.0 + tt * 0.0 == 0.0;
    } else {
      var tt := (t - 0.66) / (1.0 - 0.66);
      assert (1.0 - tt) * 255.0 + tt * 255.0 == 255.0;
      assert (1.0 - tt) * 0.0 + tt * 255.0 == 255.0 * ((t - 0.66) / 0.34);
    }
  }

  /** Both ramp channels stay within [0, 255] on [0, 1]. */
  lemma RampInRange(t: real)
    requires 0.0 <= t <= 1.0
    ensures 0 <= RampGreen(t) <= 255 && 0 <= RampBlue(t) <= 255
  {
    if t <= 0.66 {
      assert 0.0 <= t / 0.66 <= 1.0;
    } else {
      assert 0.0 <= (t - 0.66) / 0.34 <= 1.0;
    }
  }

  /** Both ramp channels are non-decreasing in t. */
  lemma RampMonotone(t1: real, t2: real)
    requires 0.0 <= t1 <= t2 <= 1.0
    ensures RampGreen(t1) <= RampGreen(t2) && RampBlue(t1) <= RampBlue(t2)
  {
    RampInRange(t1);
    RampInRange(t2);
    if t2 <= 0.66 {
      assert t1 / 0.66 <= t2 / 0.66;
    } else if t1 > 0.66 {
      assert (t1 - 0.66) / 0.34 <= (t2 - 0.66) / 0.34;
    }
  }

  /** `hotmap` returns None only for the value at a degenerate window (vmin == vmax == v), never
      reads past the last stop, and otherwise gives red 255 with green and blue in [0, 255]. */
  lemma HotmapTotal(v: real, vmin: real, vmax: real)
    ensures Hotmap(v, vmin, vmax) != StopIndexError
    ensures Hotmap(v, vmin, vmax) == NoShade <==> vmin == vmax == v
    ensures Hotmap(v, vmin, vmax).Shade? ==>
      var c := Hotmap(v, vmin, vmax).rgb; c.r == 255 && 0 <= c.g <= 255 && 0 <= c.b <= 255
  {
    var t := RampPosition(v, vmin, vmax);
    if t.Some? {
      BracketRamp(t.value);
      RampInRange(t.value);
    }
  }

  /** The window's ends and the middle stop get the three stop colours. */
  lemma HotmapStops(vmin: real, vmax: real)
    requires vmin != vmax
    ensures Hotmap(vmin, vmin, vmax) == Shade(Rgb(255, 0, 0))
    ensures Hotmap(vmax, vmin, vmax) == Shade(Rgb(255, 255, 255))
    ensures Hotmap(vmin + 0.66 * (vmax - vmin), vmin, vmax) == Shade(Rgb(255, 255, 0))
  {
    var d := vmax - vmin;
    assert (vmin - vmin) / d == 0.0;
    assert (vmax - vmin) / d == 1.0;
    assert (vmin + 0.66 * d - vmin) / d == 0.66;
    BracketRamp(0.0);
    BracketRamp(1.0);
    BracketRamp(0.66);
  }

  /** Dividing by a positive number keeps order. */
  lemma DivideMonotone(a: real, b: real, d: real)
    requires d > 0.0 && a <= b
    ensures a / d <= b / d
  {
    assert b / d - a / d == (b - a) / d;
  }

  /** Over an ordered window, green and blue never decrease as the value grows. */
  lemma HotmapMonotone(v1: real, v2: real, vmin: real, vmax: real)
    requires vmin < vmax && v1 <= v2
    ensures Hotmap(v1, vmin, vmax).Shade? && Hotmap(v2, vmin, vmax).Shade?
    ensures Hotmap(v1, vmin, vmax).rgb.g <= Hotmap(v2, vmin, vmax).rgb.g
    ensures Hotmap(v1, vmin, vmax).rgb.b <= Hotmap(v2, vmin, vmax).rgb.b
  {
    DivideMonotone(v1 - vmin, v2 - vmin, vmax - vmin);
    var t1, t2 := RampPosition(v1, vmin, vmax).value, RampPosition(v2, vmin, vmax).value;
    BracketRamp(t1);
    BracketRamp(t2);
    RampMonotone(t1, t2);
  }

  // ---------------------------------------------------------------- types

  /** `COLORS`: soma grey, axon steel blue, basal dendrite firebrick, apical dendrite coral. */
  const TypeColors: map<int, Rgb> :=
    map[1 := Rgb(160, 160, 160), 2 := Rgb(70, 130, 180), 3 := Rgb(178, 34, 34), 4 := Rgb(255, 127, 80)]

  /** `color_by_type`: the table entry for the compartment's type; any other type is a missing key
      (None). */
  function ColorByType(n: Compartment): (r: Option<Rgb>)
    ensures r.Some? <==> 1 <= n.kind <= 4
    ensures r.Some? ==> 0 <= r.value.r <= 255 && 0 <= r.value.g <= 255 && 0 <= r.value.b <= 255
  {
    if n.kind in TypeColors then Some(TypeColors[n.kind]) else None
  }

  /** The four types get four different colours. */
  lemma TypeColorsDistinct(a: Compartment, b: Compartment)
    requires ColorByType(a).Some? && ColorByType(b).Some? && a.kind != b.kind
    ensures ColorByType(a) != ColorByType(b)
  {
  }
}
