/** A triangle clipped to a band of values: its vertices, named by their position along
    the perimeter. Positions run from 0 at the first corner over 1 and 2 at the other two
    back to the first at 3. */
module ContourBandShape {
  import opened ContourGeometry
  import opened ContourClip
  import opened ContourNesting
  import opened ContourBands

  /** The values from lo up to hi, with hi itself if closed. */
  datatype Span = Span(lo: real, hi: real, closed: bool) {
    predicate Under(v: real) { v < lo }
    predicate Over(v: real) { if closed then v > hi else v >= hi }
    predicate Within(v: real) { !Under(v) && !Over(v) }
    predicate SameOutside(u: real, w: real) { (Under(u) && Under(w)) || (Over(u) && Over(w)) }
    function Near(v: real): real { if Under(v) then lo else hi }
    function Rule(): ClipRule { if closed then UpperInclusive else UpperExclusive }
  }

  // ---- both clips, edge by edge ----

  /** What the edge x -> y contributes to the polygon clipped at both bounds. */
  function BandPiece(x: SamplePoint, y: SamplePoint, s: Span): seq<SamplePoint> {
    if s.SameOutside(x.value, y.value) then []
    else
      (if s.Within(x.value) then [] else [Interpolate(x, y, s.Near(x.value))])
      + [if s.Within(y.value) then y else Interpolate(x, y, s.Near(y.value))]
  }

  lemma BandEdge(x: SamplePoint, q: SamplePoint, y: SamplePoint, s: Span)
    requires s.lo < s.hi && Stands(q, x, s.lo)
    ensures ClipFrom(q, Piece(x, y, s.lo, LowerInclusive), s.hi, s.Rule()) == BandPiece(x, y, s)
  {
    var m := Interpolate(x, y, s.lo);
    ClipFromShort(q, m, y, s.hi, s.Rule());
    ClipFromShort(q, m, m, s.hi, s.Rule());
    if !High(x, s.lo) && High(y, s.hi) { InterpolateAscending(x, y, s.lo, s.hi); }
    if High(x, s.hi) && !High(y, s.lo) { InterpolateDescending(x, y, s.lo, s.hi); }
  }

  function BandFrom(p: SamplePoint, vs: seq<SamplePoint>, s: Span): seq<SamplePoint>
    decreases |vs|
  {
    if vs == [] then [] else BandPiece(p, vs[0], s) + BandFrom(vs[0], vs[1..], s)
  }

  lemma {:induction false} BandNest(p: SamplePoint, q: SamplePoint, vs: seq<SamplePoint>, s: Span)
    requires s.lo < s.hi && Stands(q, p, s.lo)
    ensures ClipFrom(q, ClipFrom(p, vs, s.lo, LowerInclusive), s.hi, s.Rule()) == BandFrom(p, vs, s)
    decreases |vs|
  {
    if vs != [] {
      hide Piece, BandPiece, Stands;
      var piece, rest := Piece(p, vs[0], s.lo, LowerInclusive), ClipFrom(vs[0], vs[1..], s.lo, LowerInclusive);
      EdgeNest(p, q, vs[0], s.lo, s.hi);
      BandEdge(p, q, vs[0], s);
      var q' := if piece == [] then q else piece[|piece| - 1];
      BandNest(vs[0], q', vs[1..], s);
      ClipFromConcat(q, piece, rest, s.hi, s.Rule());
    }
  }

  /** The two clips of a polygon, edge by edge. */
  lemma BandClip(vs: seq<SamplePoint>, s: Span)
    requires s.lo < s.hi && vs != []
    ensures Clip(Clip(vs, s.lo, LowerInclusive), s.hi, s.Rule()) == BandFrom(vs[|vs| - 1], vs, s)
  {
    hide ClipFrom, BandFrom, Interpolate;
    var last, out := vs[|vs| - 1], Clip(vs, s.lo, LowerInclusive);
    var q := if High(last, s.lo) then last else SamplePoint(last.point, s.lo);
    NestFrom(last, q, vs, s.lo, s.hi);
    BandNest(last, if out == [] then q else out[|out| - 1], vs, s);
    ClipNothing(q, s.hi, s.Rule());
  }

  lemma ClipNothing(q: SamplePoint, b: real, rule: ClipRule)
    ensures ClipFrom(q, [], b, rule) == []
  {
  }

  lemma BandOfTriangle(t: seq<SamplePoint>, s: Span)
    requires |t| == 3
    ensures BandFrom(t[2], t, s) == BandPiece(t[2], t[0], s) + BandPiece(t[0], t[1], s) + BandPiece(t[1], t[2], s)
  {
    hide BandPiece;
    var r := t[1..];
    assert r[0] == t[1] && r[1..] == [t[2]] && [t[2]][1..] == [];
    assert BandFrom(t[1], r[1..], s) == BandPiece(t[1], t[2], s) + BandFrom(t[2], [], s);
    assert BandFrom(t[0], r, s) == BandPiece(t[0], t[1], s) + BandFrom(t[1], r[1..], s);
  }

  // ---- positions ----

  function Ratio(u: real, w: real, b: real): real { if u == w then 0.0 else (b - u) / (w - u) }

  /** Where on an edge from value u to value w the band begins and ends. */
  function Begin(u: real, w: real, s: Span): real { if s.Within(u) then 0.0 else Ratio(u, w, s.Near(u)) }

  function Finish(u: real, w: real, s: Span): real { if s.Within(w) then 1.0 else Ratio(u, w, s.Near(w)) }

  /** The positions an edge contributes when it starts at position i. */
  function PiecePositions(i: real, u: real, w: real, s: Span): seq<real> {
    if s.SameOutside(u, w) then []
    else (if s.Within(u) then [] else [i + Begin(u, w, s)]) + [i + Finish(u, w, s)]
  }

  /** All positions for corner values a, b, c. */
  function Positions(a: real, b: real, c: real, s: Span): seq<real> {
    PiecePositions(0.0, a, b, s) + PiecePositions(1.0, b, c, s) + PiecePositions(2.0, c, a, s)
  }

  /** Coordinates along the two sides from the first corner. */
  function Along(p: real): real { if p <= 1.0 then p else if p <= 2.0 then 2.0 - p else 0.0 }

  function Across(p: real): real { if p <= 1.0 then 0.0 else if p <= 2.0 then p - 1.0 else 3.0 - p }

  /** The point at u times the side a -> b plus v times the side a -> c. */
  function Spot(a: Point2, b: Point2, c: Point2, u: real, v: real): Point2 {
    Point2(a.x + u * (b.x - a.x) + v * (c.x - a.x), a.y + u * (b.y - a.y) + v * (c.y - a.y))
  }

  function Perimeter(a: Point2, b: Point2, c: Point2, p: real): Point2 { Spot(a, b, c, Along(p), Across(p)) }

  function Perimeters(a: Point2, b: Point2, c: Point2, ps: seq<real>): (r: seq<Point2>)
    ensures |r| == |ps| && forall i :: 0 <= i < |ps| ==> r[i] == Perimeter(a, b, c, ps[i])
  {
    seq(|ps|, i requires 0 <= i < |ps| => Perimeter(a, b, c, ps[i]))
  }

  lemma SideSpots(a: Point2, b: Point2, c: Point2, t: real)
    ensures Lerp(a, b, t) == Spot(a, b, c, t, 0.0)
    ensures Lerp(b, c, t) == Spot(a, b, c, 1.0 - t, t)
    ensures Lerp(c, a, t) == Spot(a, b, c, 0.0, 1.0 - t)
  {
    ScalarSides(a.x, b.x, c.x, t);
    ScalarSides(a.y, b.y, c.y, t);
  }

  lemma ScalarSides(a: real, b: real, c: real, t: real)
    ensures a + (b - a) * t == a + t * (b - a) + 0.0 * (c - a)
    ensures b + (c - b) * t == a + (1.0 - t) * (b - a) + t * (c - a)
    ensures c + (a - c) * t == a + 0.0 * (b - a) + (1.0 - t) * (c - a)
  {
    assert (1.0 - t) * (b - a) == (b - a) - t * (b - a);
    assert (1.0 - t) * (c - a) == (c - a) - t * (c - a);
    assert (c - b) * t == t * (c - a) - t * (b - a);
  }

  lemma SidesOnPerimeter(a: Point2, b: Point2, c: Point2, t: real)
    requires 0.0 <= t <= 1.0
    ensures Lerp(a, b, t) == Perimeter(a, b, c, t)
    ensures Lerp(b, c, t) == Perimeter(a, b, c, 1.0 + t)
    ensures Lerp(c, a, t) == Perimeter(a, b, c, 2.0 + t)
  {
    hide Spot, Lerp;
    SideSpots(a, b, c, t);
    assert Along(1.0 + t) == 1.0 - t && Across(1.0 + t) == t;
    assert Along(2.0 + t) == 0.0 && Across(2.0 + t) == 1.0 - t;
  }

  lemma InterpolateBetween(p: SamplePoint, c: SamplePoint, b: real)
    requires p.value != c.value && (p.value <= b <= c.value || c.value <= b <= p.value)
    ensures Interpolate(p, c, b).point == Lerp(p.point, c.point, Ratio(p.value, c.value, b))
    ensures 0.0 <= Ratio(p.value, c.value, b) <= 1.0
  {
    WeightInUnit(p.value, c.value, b);
  }

  lemma LerpEnd(p: Point2, c: Point2)
    ensures Lerp(p, c, 1.0) == c && Lerp(p, c, 0.0) == p
  {
  }

  /** Position q is at fraction q - i of the edge x -> y, and z is the point there. */
  ghost predicate OnEdgeAt(x: Point2, y: Point2, i: real, q: real, z: Point2) {
    0.0 <= q - i <= 1.0 && z == Lerp(x, y, q - i)
  }

  lemma PieceSpots(x: SamplePoint, y: SamplePoint, i: real, s: Span)
    requires s.lo < s.hi
    ensures var piece, ps := BandPiece(x, y, s), PiecePositions(i, x.value, y.value, s);
      |piece| == |ps| && forall k :: 0 <= k < |ps| ==> OnEdgeAt(x.point, y.point, i, ps[k], piece[k].point)
  {
    hide Lerp, Interpolate, Ratio;
    if !s.SameOutside(x.value, y.value) {
      LerpEnd(x.point, y.point);
      if !s.Within(x.value) { InterpolateBetween(x, y, s.Near(x.value)); }
      if !s.Within(y.value) { InterpolateBetween(x, y, s.Near(y.value)); }
    }
  }

  /** The clipped triangle's vertices lie on the perimeter, at the given positions. */
  lemma BandSpots(t: seq<SamplePoint>, s: Span)
    requires |t| == 3 && s.lo < s.hi
    ensures Points(BandFrom(t[2], t, s))
         == Perimeters(t[2].point, t[0].point, t[1].point, Positions(t[2].value, t[0].value, t[1].value, s))
  {
    hide BandPiece, PiecePositions, Perimeter, BandFrom, Lerp;
    var a, b, c := t[2], t[0], t[1];
    BandOfTriangle(t, s);
    PieceSpots(a, b, 0.0, s);
    PieceSpots(b, c, 1.0, s);
    PieceSpots(c, a, 2.0, s);
    var ps := Positions(a.value, b.value, c.value, s);
    var vs := BandFrom(t[2], t, s);
    forall k | 0 <= k < |ps| ensures vs[k].point == Perimeter(a.point, b.point, c.point, ps[k]) {
      var p0, p1 := PiecePositions(0.0, a.value, b.value, s), PiecePositions(1.0, b.value, c.value, s);
      if k < |p0| {
        assert ps[k] == p0[k];
        SidesOnPerimeter(a.point, b.point, c.point, ps[k]);
      } else if k < |p0| + |p1| {
        assert ps[k] == p1[k - |p0|];
        SidesOnPerimeter(a.point, b.point, c.point, ps[k] - 1.0);
      } else {
        assert ps[k] == PiecePositions(2.0, c.value, a.value, s)[k - |p0| - |p1|];
        SidesOnPerimeter(a.point, b.point, c.point, ps[k] - 2.0);
      }
    }
  }
}
