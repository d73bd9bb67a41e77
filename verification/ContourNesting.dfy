/** Clipping at a level and then at a higher one is clipping at the higher one. */
module ContourNesting {
  import opened ContourGeometry
  import opened ContourClip

  // ---- interpolating twice along one edge ----

  /** The weight of level b along an edge of values pv -> cv. */
  function Weight(pv: real, cv: real, b: real): real
    requires pv != cv
  {
    (b - pv) / (cv - pv)
  }

  lemma WeightCross(pv: real, cv: real, b: real)
    requires pv != cv
    ensures Weight(pv, cv, b) * (cv - pv) == b - pv
  {
  }

  lemma QuotientInUnit(x: real, d: real)
    requires (0.0 <= x <= d && 0.0 < d) || (d <= x <= 0.0 && d < 0.0)
    ensures 0.0 <= x / d <= 1.0
  {
    var t := x / d;
    assert t * d == x;
    assert (t - 1.0) * d == x - d;
  }

  lemma WeightInUnit(pv: real, cv: real, b: real)
    requires (pv <= b <= cv || cv <= b <= pv) && pv != cv
    ensures 0.0 <= Weight(pv, cv, b) <= 1.0
  {
    QuotientInUnit(b - pv, cv - pv);
  }

  lemma CancelSpan(d: real, s: real, t: real)
    requires d != 0.0 && s * d == t * d
    ensures s == t
  {
    assert (s - t) * d == 0.0;
  }

  /** First to level a, then from there to b, on the way up. */
  lemma WeightCompose(pv: real, cv: real, a: real, b: real)
    requires pv != cv && a != cv
    ensures var s, t := Weight(pv, cv, a), Weight(a, cv, b);
            s + (1.0 - s) * t == Weight(pv, cv, b)
  {
    var s, t, w := Weight(pv, cv, a), Weight(a, cv, b), Weight(pv, cv, b);
    WeightCross(pv, cv, a);
    WeightCross(a, cv, b);
    WeightCross(pv, cv, b);
    var d := cv - pv;
    assert (1.0 - s) * d == cv - a;
    assert ((1.0 - s) * t) * d == ((1.0 - s) * d) * t == (cv - a) * t == b - a;
    assert (s + (1.0 - s) * t) * d == s * d + ((1.0 - s) * t) * d == w * d;
    CancelSpan(d, s + (1.0 - s) * t, w);
  }

  /** From p towards the point at level a, stopping at b on the way down. */
  lemma WeightShorten(pv: real, cv: real, a: real, b: real)
    requires pv != cv && pv != a
    ensures Weight(pv, cv, a) * Weight(pv, a, b) == Weight(pv, cv, b)
  {
    var s, t, w := Weight(pv, cv, a), Weight(pv, a, b), Weight(pv, cv, b);
    WeightCross(pv, cv, a);
    WeightCross(pv, a, b);
    WeightCross(pv, cv, b);
    var d := cv - pv;
    assert (s * t) * d == (s * d) * t == (a - pv) * t == b - pv == w * d;
    CancelSpan(d, s * t, w);
  }

  lemma ScalarLerpCompose(p: real, c: real, s: real, t: real)
    ensures p + (c - p) * s + (c - (p + (c - p) * s)) * t == p + (c - p) * (s + (1.0 - s) * t)
    ensures p + (p + (c - p) * s - p) * t == p + (c - p) * (s * t)
  {
    var d := c - p;
    assert c - (p + d * s) == d * (1.0 - s);
    assert d * (1.0 - s) * t == d * ((1.0 - s) * t);
    assert d * (s + (1.0 - s) * t) == d * s + d * ((1.0 - s) * t);
  }

  lemma LerpCompose(p: Point2, c: Point2, s: real, t: real)
    ensures Lerp(Lerp(p, c, s), c, t) == Lerp(p, c, s + (1.0 - s) * t)
    ensures Lerp(p, Lerp(p, c, s), t) == Lerp(p, c, s * t)
  {
    ScalarLerpCompose(p.x, c.x, s, t);
    ScalarLerpCompose(p.y, c.y, s, t);
  }

  /** A crossed edge is cut at its exact weight: neither tolerance nor clamp acts. */
  lemma InterpolateCrossed(p: SamplePoint, c: SamplePoint, b: real)
    requires High(p, b) != High(c, b)
    ensures Interpolate(p, c, b) == SamplePoint(Lerp(p.point, c.point, Weight(p.value, c.value, b)), b)
  {
    WeightInUnit(p.value, c.value, b);
  }

  /** The interpolated point lies on the edge, where the linearly varying value reaches
      the level. */
  lemma InterpolateOnLevel(p: SamplePoint, c: SamplePoint, b: real) returns (t: real)
    requires High(p, b) != High(c, b)
    ensures 0.0 <= t <= 1.0 && p.value + t * (c.value - p.value) == b
    ensures Interpolate(p, c, b) == SamplePoint(Lerp(p.point, c.point, t), b)
  {
    hide Weight;
    t := Weight(p.value, c.value, b);
    InterpolateCrossed(p, c, b);
    WeightInUnit(p.value, c.value, b);
    WeightCross(p.value, c.value, b);
  }

  lemma InterpolateAscending(p: SamplePoint, c: SamplePoint, a: real, b: real)
    requires a < b && !High(p, a) && High(c, b)
    ensures Interpolate(Interpolate(p, c, a), c, b) == Interpolate(p, c, b)
  {
    hide Interpolate, Lerp, Weight;
    var m := Interpolate(p, c, a);
    InterpolateCrossed(p, c, a);
    InterpolateCrossed(p, c, b);
    InterpolateCrossed(m, c, b);
    var s, t, w := Weight(p.value, c.value, a), Weight(a, c.value, b), Weight(p.value, c.value, b);
    WeightCompose(p.value, c.value, a, b);
    LerpCompose(p.point, c.point, s, t);
    assert w == s + (1.0 - s) * t;
    assert m.point == Lerp(p.point, c.point, s) && m.value == a;
    assert Interpolate(m, c, b).point == Lerp(m.point, c.point, t);
  }

  lemma InterpolateDescending(p: SamplePoint, c: SamplePoint, a: real, b: real)
    requires a < b && High(p, b) && !High(c, a)
    ensures Interpolate(p, Interpolate(p, c, a), b) == Interpolate(p, c, b)
  {
    hide Interpolate, Lerp, Weight;
    var m := Interpolate(p, c, a);
    InterpolateCrossed(p, c, a);
    InterpolateCrossed(p, c, b);
    InterpolateCrossed(p, m, b);
    var s, t, w := Weight(p.value, c.value, a), Weight(p.value, a, b), Weight(p.value, c.value, b);
    WeightShorten(p.value, c.value, a, b);
    LerpCompose(p.point, c.point, s, t);
    assert w == s * t;
    assert m.point == Lerp(p.point, c.point, s) && m.value == a;
    assert Interpolate(p, m, b).point == Lerp(p.point, m.point, t);
  }

  // ---- nested clips ----

  /** q stands for p in the outline already clipped at a: p itself if it survived,
      otherwise a point on the level a. */
  ghost predicate Stands(q: SamplePoint, p: SamplePoint, a: real) {
    if High(p, a) then q == p else q.value == a
  }

  lemma ClipFromConcat(p: SamplePoint, vs: seq<SamplePoint>, ws: seq<SamplePoint>, b: real, rule: ClipRule)
    ensures ClipFrom(p, vs + ws, b, rule)
         == ClipFrom(p, vs, b, rule) + ClipFrom(if vs == [] then p else vs[|vs| - 1], ws, b, rule)
    decreases |vs|
  {
    if vs == [] {
      assert vs + ws == ws;
    } else {
      assert (vs + ws)[1..] == vs[1..] + ws;
      ClipFromConcat(vs[0], vs[1..], ws, b, rule);
    }
  }

  lemma ClipFromShort(p: SamplePoint, q: SamplePoint, c: SamplePoint, b: real, rule: ClipRule)
    ensures ClipFrom(p, [c], b, rule) == Piece(p, c, b, rule)
    ensures ClipFrom(p, [q, c], b, rule) == Piece(p, q, b, rule) + Piece(q, c, b, rule)
  {
    assert [c][1..] == [];
    assert [q, c][1..] == [c];
  }

  /** One edge of the nested clip, and the stand-in after it. */
  lemma EdgeNest(p: SamplePoint, q: SamplePoint, c: SamplePoint, a: real, b: real)
    requires a < b && Stands(q, p, a)
    ensures ClipFrom(q, Piece(p, c, a, LowerInclusive), b, LowerInclusive) == Piece(p, c, b, LowerInclusive)
    ensures var out := Piece(p, c, a, LowerInclusive);
            Stands(if out == [] then q else out[|out| - 1], c, a)
  {
    var m := Interpolate(p, c, a);
    ClipFromShort(q, m, c, b, LowerInclusive);
    ClipFromShort(q, m, m, b, LowerInclusive);
    if !High(p, a) && High(c, b) { InterpolateAscending(p, c, a, b); }
    if High(p, b) && !High(c, a) { InterpolateDescending(p, c, a, b); }
  }

  lemma {:induction false} NestFrom(p: SamplePoint, q: SamplePoint, vs: seq<SamplePoint>, a: real, b: real)
    requires a < b && Stands(q, p, a)
    ensures ClipFrom(q, ClipFrom(p, vs, a, LowerInclusive), b, LowerInclusive)
         == ClipFrom(p, vs, b, LowerInclusive)
    ensures var out := ClipFrom(p, vs, a, LowerInclusive);
            Stands(if out == [] then q else out[|out| - 1], if vs == [] then p else vs[|vs| - 1], a)
    decreases |vs|
  {
    if vs != [] {
      var piece, rest := Piece(p, vs[0], a, LowerInclusive), ClipFrom(vs[0], vs[1..], a, LowerInclusive);
      EdgeNest(p, q, vs[0], a, b);
      var q' := if piece == [] then q else piece[|piece| - 1];
      NestFrom(vs[0], q', vs[1..], a, b);
      ClipFromConcat(q, piece, rest, b, LowerInclusive);
    }
  }

  /** Clipping at a and then at a higher b is clipping at b, vertex for vertex. */
  lemma ClipNests(vs: seq<SamplePoint>, a: real, b: real)
    requires a < b
    ensures Clip(Clip(vs, a, LowerInclusive), b, LowerInclusive) == Clip(vs, b, LowerInclusive)
  {
    if vs != [] {
      var last, out := vs[|vs| - 1], Clip(vs, a, LowerInclusive);
      var q := if High(last, a) then last else SamplePoint(last.point, a);
      NestFrom(last, q, vs, a, b);
      if out != [] {
        NestFrom(last, out[|out| - 1], vs, a, b);
      }
    }
  }

  // ---- chords survive clipping ----

  lemma {:induction false} OneChordConcat(p: SamplePoint, vs: seq<SamplePoint>, ws: seq<SamplePoint>,
                                          b: real, x: Point2, e: Point2)
    requires OneChord(p, vs, b, x, e)
    requires OneChord(if vs == [] then p else vs[|vs| - 1], ws, b, x, e)
    ensures OneChord(p, vs + ws, b, x, e)
    decreases |vs|
  {
    if vs == [] {
      assert vs + ws == ws;
    } else {
      assert (vs + ws)[1..] == vs[1..] + ws;
      OneChordConcat(vs[0], vs[1..], ws, b, x, e);
    }
  }

  lemma EdgeChord(p: SamplePoint, q: SamplePoint, c: SamplePoint, a: real, b: real, x: Point2, e: Point2)
    requires a < b && Stands(q, p, a)
    requires High(p, b) && !High(c, b) ==> Interpolate(p, c, b).point == x
    requires !High(p, b) && High(c, b) ==> Interpolate(p, c, b).point == e
    ensures OneChord(q, Piece(p, c, a, LowerInclusive), b, x, e)
  {
    var m := Interpolate(p, c, a);
    assert [c][1..] == [] && [m][1..] == [] && [m, c][1..] == [c];
    if !High(p, a) && High(c, b) { InterpolateAscending(p, c, a, b); }
    if High(p, b) && !High(c, a) { InterpolateDescending(p, c, a, b); }
    assert !High(m, b);
    if !High(p, a) && High(c, a) {
      assert OneChord(m, [c], b, x, e);
    }
  }

  lemma {:induction false} ChordFrom(p: SamplePoint, q: SamplePoint, vs: seq<SamplePoint>, a: real, b: real,
                                     x: Point2, e: Point2)
    requires a < b && Stands(q, p, a) && OneChord(p, vs, b, x, e)
    ensures OneChord(q, ClipFrom(p, vs, a, LowerInclusive), b, x, e)
    decreases |vs|
  {
    if vs != [] {
      var piece, rest := Piece(p, vs[0], a, LowerInclusive), ClipFrom(vs[0], vs[1..], a, LowerInclusive);
      EdgeNest(p, q, vs[0], a, b);
      EdgeChord(p, q, vs[0], a, b, x, e);
      var q' := if piece == [] then q else piece[|piece| - 1];
      ChordFrom(vs[0], q', vs[1..], a, b, x, e);
      OneChordConcat(q, piece, rest, b, x, e);
    }
  }

  /** The chord at b is the same chord after clipping at a lower level. */
  lemma ChordSurvives(vs: seq<SamplePoint>, a: real, b: real, x: Point2, e: Point2)
    requires a < b && vs != [] && OneChord(vs[|vs| - 1], vs, b, x, e)
    ensures var out := Clip(vs, a, LowerInclusive);
            out != [] ==> OneChord(out[|out| - 1], out, b, x, e)
  {
    var last, out := vs[|vs| - 1], Clip(vs, a, LowerInclusive);
    if out != [] {
      var q := if High(last, a) then last else SamplePoint(last.point, a);
      NestFrom(last, q, vs, a, b);
      ChordFrom(last, out[|out| - 1], vs, a, b, x, e);
    }
  }
}
