/** The strip regrouping of vtkmorph.py (`tube_to_numpy`): the tube's triangle strips arrive as one
    flat array `n, p1 .. pn, n, p1 .. pn, ...`; each strip is filed under the type of its last
    point, and the strips of one type are joined into a single strip by repeating two indices
    between them (the last of the previous strip and the first of the next), which only adds
    degenerate triangles. */
module Strips {
  import opened Wrappers

  /** The strips by type, each type's strips joined into one index array. */
  type StripsByType = map<int, seq<nat>>

  /** The strips listed in the flat array from `offset` on. A strip is the slice after its count;
      like a numpy slice it is cut short at the end of the array. */
  function Parse(a: seq<nat>, offset: nat): (ss: seq<seq<nat>>)
    decreases |a| - offset
  {
    if offset >= |a| then []
    else [a[offset + 1..StripEnd(a, offset)]] + Parse(a, offset + 1 + a[offset])
  }

  /** Where the strip whose count sits at `offset` ends: after its count, or at the end of the
      array if that comes first. */
  function StripEnd(a: seq<nat>, offset: nat): (hi: nat)
    requires offset < |a|
    ensures offset + 1 <= hi <= |a|
  {
    if offset + 1 + a[offset] <= |a| then offset + 1 + a[offset] else |a|
  }

  /** The flat layout of a list of strips: each strip preceded by its length. */
  function Encode(ss: seq<seq<nat>>): (a: seq<nat>)
  {
    if ss == [] then [] else [|ss[0]|] + ss[0] + Encode(ss[1..])
  }

  /** The type a strip is filed under: the type of its last point. Reading the last point of an
      empty strip, or the type of a point id past the type array, raises an index error (None). */
  function StripType(s: seq<nat>, types: seq<int>): (t: Option<int>)
    ensures t.Some? <==> |s| > 0 && s[|s| - 1] < |types|
  {
    if |s| == 0 || s[|s| - 1] >= |types| then None else Some(types[s[|s| - 1]])
  }

  /** `append_substrip`: a new type starts with the strip itself; a known type gets the last index
      of its array, the first of the strip, then the strip. */
  function AppendSubstrip(m: StripsByType, ptype: int, strip: seq<nat>): StripsByType
    requires |strip| > 0 && (ptype in m ==> |m[ptype]| > 0)
  {
    if ptype !in m then m[ptype := strip]
    else
      var ts := m[ptype];
      m[ptype := ts + [ts[|ts| - 1], strip[0]] + strip]
  }

  /** The dictionary after filing the strips `ss` in order; None when a strip raises. */
  function Group(ss: seq<seq<nat>>, types: seq<int>): (r: Option<StripsByType>)
    ensures r.Some? ==> forall k :: k in r.value ==> |r.value[k]| > 0
  {
    if ss == [] then Some(map[])
    else
      var s := ss[|ss| - 1];
      match Group(ss[..|ss| - 1], types)
      case None => None
      case Some(m) =>
        match StripType(s, types)
        case None => None
        case Some(t) => Some(AppendSubstrip(m, t, s))
  }

  /** `tube_to_numpy`'s strip loop: the result of filing every strip of the flat array. */
  method TubeToNumpy(strips: seq<nat>, types: seq<int>) returns (r: Option<StripsByType>)
    ensures r == Group(Parse(strips, 0), types)
  {
    var byType: StripsByType := map[];
    var offset: nat := 0;
    ghost var done: seq<seq<nat>> := [];
    while offset < |strips|
      invariant Parse(strips, 0) == done + Parse(strips, offset)
      invariant Group(done, types) == Some(byType)
      decreases |strips| - offset
    {
      var strip, next := NextStrip(strips, offset);
      ConcatAssoc(done, [strip], Parse(strips, next));
      if |strip| == 0 || strip[|strip| - 1] >= |types| {
        GroupSnocFails(done, strip, types);
        GroupFailurePersists(done + [strip], Parse(strips, next), types);
        return None;
      }
      var stripType := types[strip[|strip| - 1]];
      GroupSnoc(done, strip, types, byType);
      byType := AppendSubstrip(byType, stripType, strip);
      done := done + [strip];
      offset := next;
    }
    assert done + [] == done;
    r := Some(byType);
  }

  /** One iteration's reading: the count at `offset`, the strip after it (cut short at the end of
      the array) and the offset of the next count. */
  method NextStrip(strips: seq<nat>, offset: nat) returns (strip: seq<nat>, next: nat)
    requires offset < |strips|
    ensures strip == strips[offset + 1..StripEnd(strips, offset)] && next == offset + 1 + strips[offset]
    ensures Parse(strips, offset) == [strip] + Parse(strips, next)
  {
    var npts := strips[offset];
    next := offset + 1;
    var hi := if next + npts <= |strips| then next + npts else |strips|;
    strip := strips[next..hi];
    next := next + npts;
  }

  /** Filing one more strip that can be classified. */
  lemma GroupSnoc(done: seq<seq<nat>>, s: seq<nat>, types: seq<int>, m: StripsByType)
    requires Group(done, types) == Some(m) && |s| > 0 && s[|s| - 1] < |types|
    ensures (forall k :: k in m ==> |m[k]| > 0)
    ensures Group(done + [s], types) == Some(AppendSubstrip(m, types[s[|s| - 1]], s))
  {
    assert (done + [s])[..|done|] == done;
  }

  /** Filing a strip that cannot be classified raises. */
  lemma GroupSnocFails(done: seq<seq<nat>>, s: seq<nat>, types: seq<int>)
    requires |s| == 0 || s[|s| - 1] >= |types|
    ensures Group(done + [s], types).None?
  {
    assert (done + [s])[..|done|] == done;
  }

  /** Once a strip raises, filing more strips after it cannot recover. */
  lemma {:induction false} GroupFailurePersists(a: seq<seq<nat>>, b: seq<seq<nat>>, types: seq<int>)
    requires Group(a, types).None?
    ensures Group(a + b, types).None?
    decreases |b|
  {
    if b == [] {
      assert a + b == a;
    } else {
      var init := b[..|b| - 1];
      assert (a + b)[..|a + b| - 1] == a + init;
      GroupFailurePersists(a, init, types);
    }
  }

  /** Parsing inverts the flat layout: the strips come back as they were encoded. */
  lemma {:induction false} ParseEncode(ss: seq<seq<nat>>)
    ensures Parse(Encode(ss), 0) == ss
  {
    ParseEncodeFrom([], ss);
    assert [] + Encode(ss) == Encode(ss);
  }

  lemma {:induction false} ParseEncodeFrom(prefix: seq<nat>, ss: seq<seq<nat>>)
    ensures Parse(prefix + Encode(ss), |prefix|) == ss
    decreases |ss|
  {
    var a := prefix + Encode(ss);
    if ss != [] {
      var s := ss[0];
      var next := prefix + [|s|] + s;
      assert a == next + Encode(ss[1..]);
      assert a[|prefix|] == |s|;
      assert a[|prefix| + 1..|prefix| + 1 + |s|] == s;
      ParseEncodeFrom(next, ss[1..]);
      assert |next| == |prefix| + 1 + |s|;
    } else {
      assert a == prefix;
    }
  }

  /** Every strip is non-empty and its last point has a type. */
  predicate Classifiable(ss: seq<seq<nat>>, types: seq<int>)
  {
    forall i :: 0 <= i < |ss| ==> |ss[i]| > 0 && ss[i][|ss[i]| - 1] < |types|
  }

  /** Filing succeeds exactly when every strip can be classified. */
  lemma {:induction false} GroupSucceedsIff(ss: seq<seq<nat>>, types: seq<int>)
    ensures Group(ss, types).Some? <==> Classifiable(ss, types)
    decreases |ss|
  {
    if ss != [] {
      var init := ss[..|ss| - 1];
      GroupSucceedsIff(init, types);
      assert forall i :: 0 <= i < |init| ==> init[i] == ss[i];
      if Classifiable(ss, types) {
        assert Classifiable(init, types);
      }
    }
  }

  /** The type of a classifiable strip. */
  function TypeOf(s: seq<nat>, types: seq<int>): int
    requires |s| > 0 && s[|s| - 1] < |types|
  {
    types[s[|s| - 1]]
  }

  /** The strips of type k, in order. */
  function OfType(ss: seq<seq<nat>>, types: seq<int>, k: int): (r: seq<seq<nat>>)
    requires Classifiable(ss, types)
    ensures forall i :: 0 <= i < |r| ==> |r[i]| > 0
  {
    if ss == [] then []
    else
      var init := ss[..|ss| - 1];
      var s := ss[|ss| - 1];
      assert forall i :: 0 <= i < |init| ==> init[i] == ss[i];
      OfType(init, types, k) + (if TypeOf(s, types) == k then [s] else [])
  }

  /** Strips joined by repeating the last index of the joined part and the first of the next
      strip. */
  function Join(xs: seq<seq<nat>>): (j: seq<nat>)
    requires |xs| > 0 && forall i :: 0 <= i < |xs| ==> |xs[i]| > 0
    ensures |j| > 0
  {
    if |xs| == 1 then xs[0]
    else
      var init := xs[..|xs| - 1];
      assert forall i :: 0 <= i < |init| ==> init[i] == xs[i];
      var j0 := Join(init);
      j0 + [j0[|j0| - 1], xs[|xs| - 1][0]] + xs[|xs| - 1]
  }

  /** Total length of a list of strips. */
  function TotalLength(xs: seq<seq<nat>>): nat
  {
    if xs == [] then 0 else TotalLength(xs[..|xs| - 1]) + |xs[|xs| - 1]|
  }

  /** A joined strip is as long as its parts plus two joiner indices between each pair. */
  lemma {:induction false} JoinLength(xs: seq<seq<nat>>)
    requires |xs| > 0 && forall i :: 0 <= i < |xs| ==> |xs[i]| > 0
    ensures |Join(xs)| == TotalLength(xs) + 2 * (|xs| - 1)
    decreases |xs|
  {
    if |xs| > 1 {
      var init := xs[..|xs| - 1];
      assert forall i :: 0 <= i < |init| ==> init[i] == xs[i];
      JoinLength(init);
    } else {
      assert xs[..0] == [];
    }
  }

  /** The dictionary holds one entry per type that occurs, and each entry is the join of that
      type's strips in the order they came. */
  lemma {:induction false} GroupIsJoin(ss: seq<seq<nat>>, types: seq<int>, k: int)
    requires Group(ss, types).Some?
    ensures Classifiable(ss, types)
    ensures k in Group(ss, types).value <==> OfType(ss, types, k) != []
    ensures k in Group(ss, types).value ==> Group(ss, types).value[k] == Join(OfType(ss, types, k))
    decreases |ss|
  {
    GroupSucceedsIff(ss, types);
    if ss != [] {
      var init := ss[..|ss| - 1];
      var s := ss[|ss| - 1];
      GroupSucceedsIff(init, types);
      GroupIsJoin(init, types, k);
      assert ss == init + [s];
      GroupSnoc(init, s, types, Group(init, types).value);
      assert Classifiable(init + [s], types);
      OfTypeSnoc(init, s, types, k);
      JoinStep(Group(init, types).value, TypeOf(s, types), s, k, OfType(init, types, k), OfType(ss, types, k));
    }
  }

  /** The induction step of GroupIsJoin: filing strip `s` of type `t` into `m`, whose entry k is
      the join of the strips `xs0`, gives the join of `xs`, the strips of type k after `s`. */
  lemma JoinStep(m: StripsByType, t: int, s: seq<nat>, k: int, xs0: seq<seq<nat>>, xs: seq<seq<nat>>)
    requires |s| > 0 && (forall j :: j in m ==> |m[j]| > 0)
    requires forall i :: 0 <= i < |xs0| ==> |xs0[i]| > 0
    requires k in m <==> xs0 != []
    requires k in m ==> m[k] == Join(xs0)
    requires xs == xs0 + (if t == k then [s] else [])
    ensures var m' := AppendSubstrip(m, t, s); (k in m' <==> xs != []) && (k in m' ==> m'[k] == Join(xs))
  {
    if t != k {
      JoinStepOther(m, t, s, k);
      assert xs == xs0;
    } else if xs0 == [] {
      JoinStepNew(m, s, k);
      assert xs == [s];
    } else {
      JoinStepKnown(m, s, k, xs0);
    }
  }

  /** A strip of another type leaves entry k alone. */
  lemma JoinStepOther(m: StripsByType, t: int, s: seq<nat>, k: int)
    requires |s| > 0 && (t in m ==> |m[t]| > 0) && t != k
    ensures var m' := AppendSubstrip(m, t, s); (k in m' <==> k in m) && (k in m ==> m'[k] == m[k])
  {
  }

  /** The first strip of type k becomes entry k. */
  lemma JoinStepNew(m: StripsByType, s: seq<nat>, k: int)
    requires |s| > 0 && k !in m
    ensures var m' := AppendSubstrip(m, k, s); k in m' && m'[k] == Join([s])
  {
  }

  /** A later strip of type k is joined onto entry k. */
  lemma JoinStepKnown(m: StripsByType, s: seq<nat>, k: int, xs0: seq<seq<nat>>)
    requires |s| > 0 && |xs0| > 0 && (forall i :: 0 <= i < |xs0| ==> |xs0[i]| > 0)
    requires k in m && m[k] == Join(xs0)
    ensures var m' := AppendSubstrip(m, k, s); k in m' && m'[k] == Join(xs0 + [s])
  {
    JoinSnoc(xs0, s);
  }

  /** Filing one more strip adds it to the strips of its own type only. */
  lemma OfTypeSnoc(init: seq<seq<nat>>, s: seq<nat>, types: seq<int>, k: int)
    requires |s| > 0 && s[|s| - 1] < |types| && Classifiable(init + [s], types)
    ensures Classifiable(init, types)
    ensures OfType(init + [s], types, k)
         == OfType(init, types, k) + (if TypeOf(s, types) == k then [s] else [])
  {
    var ss := init + [s];
    assert ss[..|ss| - 1] == init && ss[|ss| - 1] == s;
  }

  /** Joining one more strip appends the two joiner indices and the strip. */
  lemma JoinSnoc(xs: seq<seq<nat>>, s: seq<nat>)
    requires |xs| > 0 && (forall i :: 0 <= i < |xs| ==> |xs[i]| > 0) && |s| > 0
    ensures var j := Join(xs); Join(xs + [s]) == j + [j[|j| - 1], s[0]] + s
  {
    var ys := xs + [s];
    assert ys[..|ys| - 1] == xs;
  }

  /** Each type's array is as long as the strips filed under it plus two joiner indices between
      each consecutive pair of them. */
  lemma TypeArrayLength(strips: seq<nat>, types: seq<int>, k: int)
    requires Group(Parse(strips, 0), types).Some?
    requires k in Group(Parse(strips, 0), types).value
    ensures Classifiable(Parse(strips, 0), types)
    ensures var xs := OfType(Parse(strips, 0), types, k);
      |Group(Parse(strips, 0), types).value[k]| == TotalLength(xs) + 2 * (|xs| - 1)
  {
    GroupIsJoin(Parse(strips, 0), types, k);
    JoinLength(OfType(Parse(strips, 0), types, k));
  }
}
