/** Clipping a polygon with values at its vertices to one side of a level. */
module ContourClip {
  import opened Basics
  import opened ContourGeometry

  datatype SamplePoint = SamplePoint(point: Point2, value: real)

  datatype ClipRule = LowerInclusive | UpperExclusive | UpperInclusive

  predicate IsInside(value: real, boundary: real, rule: ClipRule) {
    match rule
    case LowerInclusive => value >= boundary
    case UpperExclusive => value < boundary
    case UpperInclusive => value <= boundary
  }

  function ClampUnit(t: real): real { if t < 0.0 then 0.0 else if t > 1.0 then 1.0 else t }

  /** Where the edge p -> c meets the level. */
  function Interpolate(p: SamplePoint, c: SamplePoint, boundary: real): SamplePoint {
    var delta := c.value - p.value;
    if Abs(delta) <= GEOMETRY_EPSILON then SamplePoint(p.point, boundary)
    else
      var t := ClampUnit((boundary - p.value) / delta);
      SamplePoint(Lerp(p.point, c.point, t), boundary)
  }

  /** What one edge p -> c contributes to the clipped polygon. */
  function Piece(p: SamplePoint, c: SamplePoint, b: real, rule: ClipRule): seq<SamplePoint> {
    if IsInside(c.value, b, rule) then
      if IsInside(p.value, b, rule) then [c] else [Interpolate(p, c, b), c]
    else if IsInside(p.value, b, rule) then [Interpolate(p, c, b)] else []
  }

  function ClipFrom(p: SamplePoint, vs: seq<SamplePoint>, b: real, rule: ClipRule): seq<SamplePoint>
    decreases |vs|
  {
    if vs == [] then [] else Piece(p, vs[0], b, rule) + ClipFrom(vs[0], vs[1..], b, rule)
  }

  function Clip(vs: seq<SamplePoint>, b: real, rule: ClipRule): seq<SamplePoint> {
    if vs == [] then [] else ClipFrom(vs[|vs| - 1], vs, b, rule)
  }

  lemma {:induction false} ClipFromAppend(p: SamplePoint, vs: seq<SamplePoint>, c: SamplePoint, b: real, rule: ClipRule)
    ensures ClipFrom(p, vs + [c], b, rule)
         == ClipFrom(p, vs, b, rule) + Piece(if vs == [] then p else vs[|vs| - 1], c, b, rule)
    decreases |vs|
  {
    if vs == [] {
      assert ([c])[1..] == [];
    } else {
      assert (vs + [c])[1..] == vs[1..] + [c];
      ClipFromAppend(vs[0], vs[1..], c, b, rule);
    }
  }

  /** The clipping loop over the edges of the polygon. */
  method ClipPolygon(vertices: seq<SamplePoint>, boundary: real, rule: ClipRule) returns (output: seq<SamplePoint>)
    ensures output == Clip(vertices, boundary, rule)
  {
    output := [];
    if vertices == [] {
      return;
    }
    var last := vertices[|vertices| - 1];
    var previous := last;
    var previousInside := IsInside(previous.value, boundary, rule);
    for i := 0 to |vertices|
      invariant previous == if i == 0 then last else vertices[i - 1]
      invariant previousInside == IsInside(previous.value, boundary, rule)
      invariant output == ClipFrom(last, vertices[..i], boundary, rule)
    {
      var current := vertices[i];
      assert vertices[..i + 1] == vertices[..i] + [current];
      ClipFromAppend(last, vertices[..i], current, boundary, rule);
      var currentInside := IsInside(current.value, boundary, rule);
      if currentInside {
        if !previousInside {
          output := output + [Interpolate(previous, current, boundary)];
        }
        output := output + [current];
      } else if previousInside {
        output := output + [Interpolate(previous, current, boundary)];
      }
      previous, previousInside := current, currentInside;
    }
    assert vertices[..|vertices|] == vertices;
  }

  // ---- the area on both sides of a level ----

  /** Shoelace sum along the positions of vs, starting from pen. */
  ghost function SampleSum(pen: Point2, vs: seq<SamplePoint>): real
    decreases |vs|
  {
    if vs == [] then 0.0 else Cross(pen, vs[0].point) + SampleSum(vs[0].point, vs[1..])
  }

  /** Where a pen at pen stands after drawing vs. */
  ghost function PenAfter(pen: Point2, vs: seq<SamplePoint>): Point2 {
    if vs == [] then pen else vs[|vs| - 1].point
  }

  lemma PenAfterConcat(pen: Point2, vs: seq<SamplePoint>, ws: seq<SamplePoint>)
    ensures PenAfter(pen, vs + ws) == PenAfter(PenAfter(pen, vs), ws)
  {
  }

  ghost function SampleLoop(vs: seq<SamplePoint>): real {
    if vs == [] then 0.0 else SampleSum(vs[|vs| - 1].point, vs)
  }

  lemma {:induction false} SampleSumConcat(pen: Point2, vs: seq<SamplePoint>, ws: seq<SamplePoint>)
    ensures SampleSum(pen, vs + ws)
         == SampleSum(pen, vs) + SampleSum(PenAfter(pen, vs), ws)
    decreases |vs|
  {
    if vs == [] {
      assert vs + ws == ws;
    } else {
      assert (vs + ws)[1..] == vs[1..] + ws;
      SampleSumConcat(vs[0].point, vs[1..], ws);
    }
  }

  /** A point on the line through p and c splits the cross product. */
  lemma LerpSplitsCross(p: Point2, c: Point2, t: real)
    ensures Cross(p, Lerp(p, c, t)) + Cross(Lerp(p, c, t), c) == Cross(p, c)
  {
    assert Cross(p, Lerp(p, c, t)) == t * Cross(p, c);
    assert Cross(Lerp(p, c, t), c) == (1.0 - t) * Cross(p, c);
  }

  lemma InterpolateSplitsCross(p: SamplePoint, c: SamplePoint, b: real)
    ensures var m := Interpolate(p, c, b).point;
            Cross(p.point, m) + Cross(m, c.point) == Cross(p.point, c.point)
  {
    if Abs(c.value - p.value) > GEOMETRY_EPSILON {
      LerpSplitsCross(p.point, c.point, ClampUnit((b - p.value) / (c.value - p.value)));
    } else {
      assert Cross(p.point, p.point) == 0.0;
    }
  }

  predicate High(s: SamplePoint, b: real) { s.value >= b }

  /** Along p, vs[0], vs[1], ... every descent through b leaves at x and every
      ascent enters at e. */
  ghost predicate OneChord(p: SamplePoint, vs: seq<SamplePoint>, b: real, x: Point2, e: Point2)
    decreases |vs|
  {
    vs == [] ||
    (&& (High(p, b) && !High(vs[0], b) ==> Interpolate(p, vs[0], b).point == x)
     && (!High(p, b) && High(vs[0], b) ==> Interpolate(p, vs[0], b).point == e)
     && OneChord(vs[0], vs[1..], b, x, e))
  }

  /** Where the outline of the upper (lower) part stands while the walk is at p. */
  ghost function UpperPen(p: SamplePoint, b: real, x: Point2): Point2 { if High(p, b) then p.point else x }

  ghost function LowerPen(p: SamplePoint, b: real, e: Point2): Point2 { if High(p, b) then e else p.point }

  ghost function Level(p: SamplePoint, b: real): real { if High(p, b) then 1.0 else 0.0 }

  /** One edge: the two pieces together cover the edge, up to the shared chord. */
  lemma EdgeSplit(p: SamplePoint, c: SamplePoint, b: real, x: Point2, e: Point2)
    requires High(p, b) && !High(c, b) ==> Interpolate(p, c, b).point == x
    requires !High(p, b) && High(c, b) ==> Interpolate(p, c, b).point == e
    ensures SampleSum(UpperPen(p, b, x), Piece(p, c, b, LowerInclusive))
          + SampleSum(LowerPen(p, b, e), Piece(p, c, b, UpperExclusive))
         == Cross(p.point, c.point) + (Level(c, b) - Level(p, b)) * Cross(x, e)
    ensures UpperPen(c, b, x) == PenAfter(UpperPen(p, b, x), Piece(p, c, b, LowerInclusive))
    ensures LowerPen(c, b, e) == PenAfter(LowerPen(p, b, e), Piece(p, c, b, UpperExclusive))
  {
    InterpolateSplitsCross(p, c, b);
    var m := Interpolate(p, c, b);
    assert forall pen :: SampleSum(pen, [c]) == Cross(pen, c.point) by { assert [c][1..] == []; }
    assert forall pen :: SampleSum(pen, [m]) == Cross(pen, m.point) by { assert [m][1..] == []; }
    assert [m, c][1..] == [c];
    assert Cross(e, x) == -Cross(x, e);
  }

  lemma {:induction false} SplitFrom(p: SamplePoint, vs: seq<SamplePoint>, b: real, x: Point2, e: Point2)
    requires OneChord(p, vs, b, x, e)
    ensures SampleSum(UpperPen(p, b, x), ClipFrom(p, vs, b, LowerInclusive))
          + SampleSum(LowerPen(p, b, e), ClipFrom(p, vs, b, UpperExclusive))
         == SampleSum(p.point, vs)
          + (Level(if vs == [] then p else vs[|vs| - 1], b) - Level(p, b)) * Cross(x, e)
    decreases |vs|
  {
    if vs != [] {
      var c, rest := vs[0], vs[1..];
      EdgeSplit(p, c, b, x, e);
      SplitFrom(c, rest, b, x, e);
      SampleSumConcat(UpperPen(p, b, x), Piece(p, c, b, LowerInclusive), ClipFrom(c, rest, b, LowerInclusive));
      SampleSumConcat(LowerPen(p, b, e), Piece(p, c, b, UpperExclusive), ClipFrom(c, rest, b, UpperExclusive));
    }
  }

  /** The outlines end where the pens of the last vertex stand. */
  lemma {:induction false} PensAfter(p: SamplePoint, vs: seq<SamplePoint>, b: real, x: Point2, e: Point2)
    requires OneChord(p, vs, b, x, e)
    ensures var last := if vs == [] then p else vs[|vs| - 1];
      && UpperPen(last, b, x) == PenAfter(UpperPen(p, b, x), ClipFrom(p, vs, b, LowerInclusive))
      && LowerPen(last, b, e) == PenAfter(LowerPen(p, b, e), ClipFrom(p, vs, b, UpperExclusive))
    decreases |vs|
  {
    hide Interpolate, Cross, SampleSum, Piece, UpperPen, LowerPen, High;
    if vs == [] {
      assert forall pen :: PenAfter(pen, []) == pen;
    } else {
      hide PenAfter;
      var c, rest := vs[0], vs[1..];
      EdgeSplit(p, c, b, x, e);
      PensAfter(c, rest, b, x, e);
      PenAfterConcat(UpperPen(p, b, x), Piece(p, c, b, LowerInclusive), ClipFrom(c, rest, b, LowerInclusive));
      PenAfterConcat(LowerPen(p, b, e), Piece(p, c, b, UpperExclusive), ClipFrom(c, rest, b, UpperExclusive));
    }
  }

  lemma LoopFromPen(pen: Point2, vs: seq<SamplePoint>)
    requires vs == [] || vs[|vs| - 1].point == pen
    ensures SampleLoop(vs) == SampleSum(pen, vs)
  {
  }

  /** A polygon cut by one chord is, in area, the sum of its two clips. */
  lemma ClipConservesArea(vs: seq<SamplePoint>, b: real, x: Point2, e: Point2)
    requires vs != [] && OneChord(vs[|vs| - 1], vs, b, x, e)
    ensures SampleLoop(Clip(vs, b, LowerInclusive)) + SampleLoop(Clip(vs, b, UpperExclusive)) == SampleLoop(vs)
  {
    hide ClipFrom, SampleLoop, SampleSum, Cross, OneChord, UpperPen, LowerPen;
    var last := vs[|vs| - 1];
    SplitFrom(last, vs, b, x, e);
    PensAfter(last, vs, b, x, e);
    LoopFromPen(last.point, vs);
    LoopFromPen(UpperPen(last, b, x), Clip(vs, b, LowerInclusive));
    LoopFromPen(LowerPen(last, b, e), Clip(vs, b, UpperExclusive));
  }
}
