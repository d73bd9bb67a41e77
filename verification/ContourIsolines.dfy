/** Level lines by marching squares over a grid with missing values. */
module ContourIsolines {
  import opened Basics
  import opened ContourGeometry
  import opened ContourGrid
  import Clipping = ContourClip
  import Nesting = ContourNesting

  /** Node positions and values, row by row; a non-finite value is None. */
  datatype Field = Field(shape: GridShape, points: seq<Point2>, values: seq<Option<real>>) {
    ghost predicate Valid() {
      && shape.Valid()
      && |points| == shape.nx * shape.ny && |values| == shape.nx * shape.ny
    }
  }

  lemma NodeInRange(shape: GridShape, column: nat, row: nat)
    requires shape.ContainsNode(column, row)
    ensures shape.NodeIndex(column, row) < shape.nx * shape.ny
  {
    assert (row + 1) * shape.nx <= shape.ny * shape.nx;
  }

  function PointAt(f: Field, column: nat, row: nat): Point2
    requires f.Valid() && f.shape.ContainsNode(column, row)
  {
    NodeInRange(f.shape, column, row);
    f.points[f.shape.NodeIndex(column, row)]
  }

  function ValueAt(f: Field, column: nat, row: nat): Option<real>
    requires f.Valid() && f.shape.ContainsNode(column, row)
  {
    NodeInRange(f.shape, column, row);
    f.values[f.shape.NodeIndex(column, row)]
  }

  datatype Sample = Sample(point: Point2, value: real)

  /** Column and row offsets of corner k, counter-clockwise from the south-west. */
  function CornerColumn(cell: CellIndex, k: nat): int { if k == 1 || k == 2 then cell.column + 1 else cell.column }

  function CornerRow(cell: CellIndex, k: nat): int { if k >= 2 then cell.row + 1 else cell.row }

  predicate CellIsFinite(f: Field, cell: CellIndex)
    requires f.Valid() && f.shape.ContainsCell(cell.column, cell.row)
  {
    forall k :: 0 <= k < 4 ==> ValueAt(f, CornerColumn(cell, k), CornerRow(cell, k)).Some?
  }

  function Corner(f: Field, cell: CellIndex, k: nat): Sample
    requires f.Valid() && f.shape.ContainsCell(cell.column, cell.row) && CellIsFinite(f, cell) && k < 4
  {
    var c, r := CornerColumn(cell, k), CornerRow(cell, k);
    Sample(PointAt(f, c, r), ValueAt(f, c, r).value)
  }

  function CenterValue(f: Field, cell: CellIndex): real
    requires f.Valid() && f.shape.ContainsCell(cell.column, cell.row) && CellIsFinite(f, cell)
  {
    (Corner(f, cell, 0).value + Corner(f, cell, 1).value + Corner(f, cell, 2).value + Corner(f, cell, 3).value) * 0.25
  }

  /** Where the level crosses the edge a -> b, if it does. */
  function EdgeIntersection(a: Sample, b: Sample, level: real): Option<Point2> {
    var crosses := (a.value < level && b.value >= level) || (a.value >= level && b.value < level);
    if !crosses then None
    else
      var delta := b.value - a.value;
      if Abs(delta) <= GEOMETRY_EPSILON then None
      else Some(Lerp(a.point, b.point, Clipping.ClampUnit((level - a.value) / delta)))
  }

  /** Bit k is set when corner k is at or above the level. */
  function Mask(high: seq<bool>): nat
    requires |high| == 4
  {
    (if high[0] then 1 else 0) + (if high[1] then 2 else 0) + (if high[2] then 4 else 0) + (if high[3] then 8 else 0)
  }

  function HighCorners(f: Field, cell: CellIndex, level: real): seq<bool>
    requires f.Valid() && f.shape.ContainsCell(cell.column, cell.row) && CellIsFinite(f, cell)
  {
    [Corner(f, cell, 0).value >= level, Corner(f, cell, 1).value >= level,
     Corner(f, cell, 2).value >= level, Corner(f, cell, 3).value >= level]
  }

  /** The lookup table: which cell edges (0 south, 1 east, 2 north, 3 west) are
      joined, with the two saddles decided by the cell average. */
  function EdgePairs(mask: nat, centerIsHigh: bool): seq<(nat, nat)> {
    if mask == 1 || mask == 14 then [(3, 0)]
    else if mask == 2 || mask == 13 then [(0, 1)]
    else if mask == 3 || mask == 12 then [(3, 1)]
    else if mask == 4 || mask == 11 then [(1, 2)]
    else if mask == 5 then if centerIsHigh then [(0, 1), (2, 3)] else [(3, 0), (1, 2)]
    else if mask == 6 || mask == 9 then [(0, 2)]
    else if mask == 7 || mask == 8 then [(3, 2)]
    else if mask == 10 then if centerIsHigh then [(3, 0), (1, 2)] else [(0, 1), (2, 3)]
    else []
  }

  /** A segment before zero-length filtering, with the cell edges it joins. */
  datatype Segment = Segment(cell: CellIndex, startEdge: nat, endEdge: nat, start: Point2, end: Point2)

  function LocalIntersection(f: Field, cell: CellIndex, level: real, k: nat): Option<Point2>
    requires f.Valid() && f.shape.ContainsCell(cell.column, cell.row) && CellIsFinite(f, cell) && k < 4
  {
    EdgeIntersection(Corner(f, cell, k), Corner(f, cell, (k + 1) % 4), level)
  }

  function PairSegments(f: Field, cell: CellIndex, level: real, pairs: seq<(nat, nat)>): seq<Segment>
    requires f.Valid() && f.shape.ContainsCell(cell.column, cell.row) && CellIsFinite(f, cell)
    requires forall i :: 0 <= i < |pairs| ==> pairs[i].0 < 4 && pairs[i].1 < 4
  {
    if pairs == [] then []
    else
      var (s, e) := pairs[|pairs| - 1];
      var start, end := LocalIntersection(f, cell, level, s), LocalIntersection(f, cell, level, e);
      PairSegments(f, cell, level, pairs[..|pairs| - 1]) +
      if start.Some? && end.Some? then [Segment(cell, s, e, start.value, end.value)] else []
  }

  function CellSegments(f: Field, cell: CellIndex, level: real): seq<Segment>
    requires f.Valid() && f.shape.ContainsCell(cell.column, cell.row)
  {
    if !CellIsFinite(f, cell) then []
    else PairSegments(f, cell, level, EdgePairs(Mask(HighCorners(f, cell, level)), CenterValue(f, cell) >= level))
  }

  /** The mask, one corner bit at a time. */
  method CellMask(high: seq<bool>) returns (mask: nat)
    requires |high| == 4
    ensures mask == Mask(high) <= 15
  {
    mask := 0;
    var bit := 1;
    for index := 0 to 4
      invariant bit == [1, 2, 4, 8, 16][index]
      invariant mask == Mask(high[..index] + seq(4 - index, _ => false))
    {
      if high[index] {
        mask := mask + bit;
      }
      bit := 2 * bit;
    }
    assert high[..4] + seq(0, _ => false) == high;
  }

  // ---- segments that shrink to a point are dropped ----

  function Times(x: real, y: real): real { x * y }

  function Squared(x: real): real { Times(x, x) }

  function LengthSquared(s: Segment): real { Squared(s.end.x - s.start.x) + Squared(s.end.y - s.start.y) }

  predicate HasLength(s: Segment) { LengthSquared(s) > GEOMETRY_EPSILON * GEOMETRY_EPSILON }

  function IfLasting(s: Segment): seq<Segment> { if HasLength(s) then [s] else [] }

  /** Without the segments of no length. */
  function Lasting(segments: seq<Segment>): seq<Segment> {
    if segments == [] then [] else Lasting(segments[..|segments| - 1]) + IfLasting(segments[|segments| - 1])
  }

  lemma TimesPositive(x: real, y: real)
    requires x > 0.0 && y > 0.0
    ensures Times(x, y) > 0.0
  {
  }

  lemma SquaredNegated(x: real)
    ensures Squared(-x) == Squared(x) && Squared(0.0) == 0.0
  {
  }

  lemma SquaredZero(x: real)
    ensures Squared(x) >= 0.0 && (Squared(x) == 0.0 <==> x == 0.0)
  {
    hide Times;
    SquaredNegated(x);
    if x > 0.0 { TimesPositive(x, x); }
    if x < 0.0 { TimesPositive(-x, -x); }
  }

  lemma HasLengthExactly(s: Segment)
    ensures HasLength(s) <==> s.start != s.end
  {
    hide Squared;
    SquaredZero(s.end.x - s.start.x);
    SquaredZero(s.end.y - s.start.y);
    assert s.start == s.end <==> s.start.x == s.end.x && s.start.y == s.end.y;
  }

  lemma LastingNext(segments: seq<Segment>, s: Segment)
    ensures Lasting(segments + [s]) == Lasting(segments) + IfLasting(s)
  {
    hide IfLasting;
    assert (segments + [s])[..|segments|] == segments;
  }

  lemma {:induction false} LastingConcat(a: seq<Segment>, b: seq<Segment>)
    ensures Lasting(a + b) == Lasting(a) + Lasting(b)
  {
    hide IfLasting;
    if b == [] {
      assert a + b == a;
    } else {
      var n := |b| - 1;
      assert (a + b)[..|a + b| - 1] == a + b[..n];
      LastingConcat(a, b[..n]);
    }
  }

  /** How many segment ends lie at v. */
  ghost function EndsAt(segments: seq<Segment>, v: Point2): nat {
    if segments == [] then 0 else EndsAt(segments[..|segments| - 1], v) + OwnEndsAt(segments[|segments| - 1], v)
  }

  function OwnEndsAt(s: Segment, v: Point2): nat { (if s.start == v then 1 else 0) + if s.end == v then 1 else 0 }

  lemma EndsAtAppend(segments: seq<Segment>, s: Segment, v: Point2)
    ensures EndsAt(segments + [s], v) == EndsAt(segments, v) + OwnEndsAt(s, v)
  {
    assert (segments + [s])[..|segments|] == segments;
  }

  /** Dropping them takes an even number of ends from every point, so lines still end
      nowhere else. */
  lemma {:induction false} LastingKeepsParity(segments: seq<Segment>, v: Point2)
    ensures EndsAt(Lasting(segments), v) <= EndsAt(segments, v)
    ensures EndsAt(Lasting(segments), v) % 2 == EndsAt(segments, v) % 2
  {
    hide HasLength, EndsAt;
    if segments != [] {
      var front, last := segments[..|segments| - 1], segments[|segments| - 1];
      assert segments == front + [last];
      LastingKeepsParity(front, v);
      LastingNext(front, last);
      HasLengthExactly(last);
      EndsAtAppend(front, last, v);
      EndsAtAppend(Lasting(front), last, v);
      var more := OwnEndsAt(last, v);
      if HasLength(last) {
        SameParity(EndsAt(Lasting(front), v), EndsAt(front, v), more, more);
      } else {
        assert Lasting(front) + [] == Lasting(front);
        SameParity(EndsAt(Lasting(front), v), EndsAt(front, v), 0, more);
      }
    } else {
      assert Lasting(segments) == segments;
    }
  }

  lemma SameParity(a: nat, b: nat, m: nat, n: nat)
    requires a % 2 == b % 2 && (m == n || m + 2 == n)
    ensures (a + m) % 2 == (b + n) % 2
  {
  }

  /** And only those are dropped. */
  lemma {:induction false} LastingMembers(segments: seq<Segment>, s: Segment)
    ensures s in Lasting(segments) <==> s in segments && s.start != s.end
  {
    hide HasLength;
    if segments != [] {
      var front, last := segments[..|segments| - 1], segments[|segments| - 1];
      LastingMembers(front, s);
      HasLengthExactly(last);
      assert segments == front + [last];
    }
  }

  lemma LastingPairs(f: Field, cell: CellIndex, level: real, pairs: seq<(nat, nat)>, i: nat)
    requires f.Valid() && f.shape.ContainsCell(cell.column, cell.row) && CellIsFinite(f, cell)
    requires i < |pairs| && forall i :: 0 <= i < |pairs| ==> pairs[i].0 < 4 && pairs[i].1 < 4
    ensures var (s, e) := pairs[i];
      var start, end := LocalIntersection(f, cell, level, s), LocalIntersection(f, cell, level, e);
      Lasting(PairSegments(f, cell, level, pairs[..i + 1])) == Lasting(PairSegments(f, cell, level, pairs[..i]))
        + if start.Some? && end.Some? then IfLasting(Segment(cell, s, e, start.value, end.value)) else []
  {
    hide LocalIntersection, IfLasting, Lasting, CellIsFinite;
    assert pairs[..i + 1][..i] == pairs[..i];
    var (s, e) := pairs[i];
    var start, end := LocalIntersection(f, cell, level, s), LocalIntersection(f, cell, level, e);
    if start.Some? && end.Some? {
      LastingNext(PairSegments(f, cell, level, pairs[..i]), Segment(cell, s, e, start.value, end.value));
    } else {
      assert PairSegments(f, cell, level, pairs[..i + 1]) == PairSegments(f, cell, level, pairs[..i]);
    }
  }

  lemma NoPairs(f: Field, cell: CellIndex, level: real)
    requires f.Valid() && f.shape.ContainsCell(cell.column, cell.row)
    ensures Lasting([]) == [] && (CellIsFinite(f, cell) ==> PairSegments(f, cell, level, []) == [])
  {
  }

  /** The segments of one cell, with absent intersections and points skipped. */
  method ContourSegmentsForCell(f: Field, cell: CellIndex, level: real) returns (segments: seq<Segment>)
    requires f.Valid() && f.shape.ContainsCell(cell.column, cell.row)
    ensures segments == Lasting(CellSegments(f, cell, level))
  {
    hide LocalIntersection, CenterValue, Mask, HasLength, PairSegments, Lasting;
    NoPairs(f, cell, level);
    segments := [];
    if !CellIsFinite(f, cell) {
      return;
    }
    var mask := CellMask(HighCorners(f, cell, level));
    if mask == 0 || mask == 15 {
      return;
    }
    var pairs := EdgePairs(mask, CenterValue(f, cell) >= level);
    for i := 0 to |pairs|
      invariant segments == Lasting(PairSegments(f, cell, level, pairs[..i]))
    {
      var (s, e) := pairs[i];
      LastingPairs(f, cell, level, pairs, i);
      var start, end := LocalIntersection(f, cell, level, s), LocalIntersection(f, cell, level, e);
      if start.Some? && end.Some? {
        var segment := Segment(cell, s, e, start.value, end.value);
        if HasLength(segment) {
          segments := segments + [segment];
        }
      }
    }
    assert pairs[..|pairs|] == pairs;
  }

  // ---- node edges ----

  /** An edge of the grid, named by its south or west node. */
  datatype NodeEdge = Horizontal(column: int, row: int) | Vertical(column: int, row: int)

  function EdgeOf(cell: CellIndex, k: nat): NodeEdge {
    if k == 0 then Horizontal(cell.column, cell.row)
    else if k == 1 then Vertical(cell.column + 1, cell.row)
    else if k == 2 then Horizontal(cell.column, cell.row + 1)
    else Vertical(cell.column, cell.row)
  }

  predicate IsGridEdge(shape: GridShape, e: NodeEdge) {
    0 <= e.column && 0 <= e.row &&
    match e
    case Horizontal(c, r) => c + 1 < shape.nx && r < shape.ny
    case Vertical(c, r) => c < shape.nx && r + 1 < shape.ny
  }

  ghost function FirstValue(f: Field, e: NodeEdge): Option<real>
    requires f.Valid() && IsGridEdge(f.shape, e)
  {
    ValueAt(f, e.column, e.row)
  }

  ghost function SecondValue(f: Field, e: NodeEdge): Option<real>
    requires f.Valid() && IsGridEdge(f.shape, e)
  {
    if e.Horizontal? then ValueAt(f, e.column + 1, e.row) else ValueAt(f, e.column, e.row + 1)
  }

  ghost function SecondPoint(f: Field, e: NodeEdge): Point2
    requires f.Valid() && IsGridEdge(f.shape, e)
  {
    if e.Horizontal? then PointAt(f, e.column + 1, e.row) else PointAt(f, e.column, e.row + 1)
  }

  /** The level lies between the two node values of the edge. */
  ghost predicate Crossed(f: Field, e: NodeEdge, level: real)
    requires f.Valid() && IsGridEdge(f.shape, e)
  {
    var a, b := FirstValue(f, e), SecondValue(f, e);
    a.Some? && b.Some? && (a.value >= level) != (b.value >= level)
  }

  /** The point at which the level crosses the edge, whichever cell asks. */
  ghost function EdgePoint(f: Field, e: NodeEdge, level: real): Point2
    requires f.Valid() && IsGridEdge(f.shape, e) && Crossed(f, e, level)
  {
    var a, b := FirstValue(f, e).value, SecondValue(f, e).value;
    Lerp(PointAt(f, e.column, e.row), SecondPoint(f, e), Nesting.Weight(a, b, level))
  }

  /** An intersection exists exactly on a crossed edge, at the exact weight. */
  lemma IntersectionExact(a: Sample, b: Sample, level: real)
    ensures EdgeIntersection(a, b, level).Some? <==> (a.value >= level) != (b.value >= level)
    ensures EdgeIntersection(a, b, level).Some? ==>
              EdgeIntersection(a, b, level).value == Lerp(a.point, b.point, Nesting.Weight(a.value, b.value, level))
  {
    if (a.value >= level) != (b.value >= level) {
      Nesting.WeightInUnit(a.value, b.value, level);
    }
  }

  lemma ScalarReversed(p: real, q: real, s: real, t: real)
    requires s + t == 1.0
    ensures p + (q - p) * s == q + (p - q) * t
  {
    assert t == 1.0 - s;
    assert (p - q) * (1.0 - s) == (p - q) - (p - q) * s;
  }

  lemma WeightsAddToOne(x: real, y: real, level: real)
    requires x != y
    ensures Nesting.Weight(x, y, level) + Nesting.Weight(y, x, level) == 1.0
  {
    hide Nesting.Weight;
    var s, t, d := Nesting.Weight(x, y, level), Nesting.Weight(y, x, level), y - x;
    Nesting.WeightCross(x, y, level);
    Nesting.WeightCross(y, x, level);
    assert s * d == level - x;
    assert t * d == y - level;
    assert (s + t) * d == s * d + t * d;
    Nesting.CancelSpan(d, s + t, 1.0);
  }

  /** Both directions along an edge find the same point. */
  lemma IntersectionReversed(a: Sample, b: Sample, level: real)
    ensures EdgeIntersection(a, b, level) == EdgeIntersection(b, a, level)
  {
    hide EdgeIntersection, Nesting.Weight;
    IntersectionExact(a, b, level);
    IntersectionExact(b, a, level);
    if (a.value >= level) != (b.value >= level) {
      var s, t := Nesting.Weight(a.value, b.value, level), Nesting.Weight(b.value, a.value, level);
      WeightsAddToOne(a.value, b.value, level);
      ScalarReversed(a.point.x, b.point.x, s, t);
      ScalarReversed(a.point.y, b.point.y, s, t);
      assert Lerp(a.point, b.point, s) == Lerp(b.point, a.point, t);
    }
  }

  /** A cell sees each of its four edges crossed, and where, just as the grid does. */
  lemma LocalMatchesGrid(f: Field, cell: CellIndex, level: real, k: nat)
    requires f.Valid() && f.shape.ContainsCell(cell.column, cell.row) && CellIsFinite(f, cell) && k < 4
    ensures IsGridEdge(f.shape, EdgeOf(cell, k))
    ensures LocalIntersection(f, cell, level, k).Some? <==> Crossed(f, EdgeOf(cell, k), level)
    ensures Crossed(f, EdgeOf(cell, k), level) ==>
              LocalIntersection(f, cell, level, k).value == EdgePoint(f, EdgeOf(cell, k), level)
    ensures Crossed(f, EdgeOf(cell, k), level) <==>
              HighCorners(f, cell, level)[k] != HighCorners(f, cell, level)[(k + 1) % 4]
  {
    hide EdgeIntersection;
    var a, b := Corner(f, cell, k), Corner(f, cell, (k + 1) % 4);
    IntersectionExact(a, b, level);
    IntersectionExact(b, a, level);
    IntersectionReversed(a, b, level);
  }

  // ---- counting segment ends on an edge ----

  /** How many segment ends lie on grid edge e. */
  ghost function EndsOn(segments: seq<Segment>, e: NodeEdge): nat {
    if segments == [] then 0
    else
      var s := segments[|segments| - 1];
      EndsOn(segments[..|segments| - 1], e)
      + (if EdgeOf(s.cell, s.startEdge) == e then 1 else 0) + (if EdgeOf(s.cell, s.endEdge) == e then 1 else 0)
  }

  lemma {:induction false} EndsOnConcat(s: seq<Segment>, t: seq<Segment>, e: NodeEdge)
    ensures EndsOn(s + t, e) == EndsOn(s, e) + EndsOn(t, e)
  {
    if t == [] {
      assert s + t == s;
    } else {
      assert (s + t)[..|s + t| - 1] == s + t[..|t| - 1];
      EndsOnConcat(s, t[..|t| - 1], e);
    }
  }

  /** How often cell edge k occurs in a list of edge pairs. */
  ghost function Uses(pairs: seq<(nat, nat)>, k: nat): nat {
    if pairs == [] then 0
    else Uses(pairs[..|pairs| - 1], k)
         + (if pairs[|pairs| - 1].0 == k then 1 else 0) + (if pairs[|pairs| - 1].1 == k then 1 else 0)
  }

  lemma UsesUnfolded(pairs: seq<(nat, nat)>, k: nat)
    ensures pairs == [] ==> Uses(pairs, k) == 0
    ensures |pairs| == 1 ==> Uses(pairs, k) == (if pairs[0].0 == k then 1 else 0) + (if pairs[0].1 == k then 1 else 0)
    ensures |pairs| == 2 ==>
      Uses(pairs, k) == (if pairs[0].0 == k then 1 else 0) + (if pairs[0].1 == k then 1 else 0)
                      + (if pairs[1].0 == k then 1 else 0) + (if pairs[1].1 == k then 1 else 0)
  {
    if |pairs| == 2 {
      assert pairs[..1] == [pairs[0]];
      assert Uses(pairs[..1][..0], k) == 0;
      assert Uses([pairs[0]], k) == (if pairs[0].0 == k then 1 else 0) + (if pairs[0].1 == k then 1 else 0);
    }
  }

  /** The lookup table joins each crossed edge once and no other edge. */
  lemma TableUsesCrossedEdges(high: seq<bool>, centerIsHigh: bool, k: nat)
    requires |high| == 4 && k < 4
    ensures Uses(EdgePairs(Mask(high), centerIsHigh), k) == if high[k] != high[(k + 1) % 4] then 1 else 0
  {
    UsesUnfolded(EdgePairs(Mask(high), centerIsHigh), k);
  }

  /** The corner where two neighbouring edges of a cell meet. */
  function SharedCorner(s: nat, e: nat): nat { if (s + 1) % 4 == e then e else s }

  /** In a saddle each segment cuts off one corner that is on the other side of the
      level than the centre, so the centre stays with the two corners on its side. */
  lemma SaddleFollowsCentre(high: seq<bool>, centerIsHigh: bool, i: nat)
    requires |high| == 4
    requires var pairs := EdgePairs(Mask(high), centerIsHigh); |pairs| == 2 && i < 2
    ensures var (s, e) := EdgePairs(Mask(high), centerIsHigh)[i];
            && ((s + 1) % 4 == e || (e + 1) % 4 == s)
            && SharedCorner(s, e) < 4 && high[SharedCorner(s, e)] != centerIsHigh
  {
    assert Mask(high) == 5 || Mask(high) == 10;
    assert high == [true, false, true, false] || high == [false, true, false, true];
  }

  /** The value stored for corner k of a cell, in a grid stored row by row. */
  ghost function StoredValue(f: Field, cell: CellIndex, k: nat): Option<real>
    requires f.Valid() && f.shape.ContainsCell(cell.column, cell.row) && k < 4
  {
    var nx := f.shape.nx;
    var first := cell.row * nx + cell.column;
    NodeInRange(f.shape, cell.column + 1, cell.row + 1);
    assert (cell.row + 1) * nx == cell.row * nx + nx;
    f.values[if k == 0 then first else if k == 1 then first + 1 else if k == 2 then first + nx + 1 else first + nx]
  }

  lemma CornerIsStored(f: Field, cell: CellIndex, k: nat)
    requires f.Valid() && f.shape.ContainsCell(cell.column, cell.row) && k < 4
    ensures ValueAt(f, CornerColumn(cell, k), CornerRow(cell, k)) == StoredValue(f, cell, k)
  {
    assert (cell.row + 1) * f.shape.nx == cell.row * f.shape.nx + f.shape.nx;
  }

  /** The corner values are at or above the level on one diagonal and below it on the
      other. */
  ghost predicate IsSaddle(f: Field, cell: CellIndex, level: real)
    requires f.Valid() && f.shape.ContainsCell(cell.column, cell.row)
  {
    && (forall k :: 0 <= k < 4 ==> StoredValue(f, cell, k).Some?)
    && ((StoredValue(f, cell, 0).value >= level) == (StoredValue(f, cell, 2).value >= level))
    && ((StoredValue(f, cell, 1).value >= level) == (StoredValue(f, cell, 3).value >= level))
    && ((StoredValue(f, cell, 0).value >= level) != (StoredValue(f, cell, 1).value >= level))
  }

  lemma StoredIsFinite(f: Field, cell: CellIndex)
    requires f.Valid() && f.shape.ContainsCell(cell.column, cell.row)
    ensures CellIsFinite(f, cell) <==> forall k :: 0 <= k < 4 ==> StoredValue(f, cell, k).Some?
  {
    hide ValueAt, StoredValue;
    forall k | 0 <= k < 4
      ensures ValueAt(f, CornerColumn(cell, k), CornerRow(cell, k)) == StoredValue(f, cell, k)
    {
      CornerIsStored(f, cell, k);
    }
  }

  lemma StoredCorners(f: Field, cell: CellIndex, level: real)
    requires f.Valid() && f.shape.ContainsCell(cell.column, cell.row) && CellIsFinite(f, cell)
    ensures forall k :: 0 <= k < 4 ==> StoredValue(f, cell, k).Some?
    ensures |HighCorners(f, cell, level)| == 4
    ensures forall k :: 0 <= k < 4 ==> (HighCorners(f, cell, level)[k] <==> StoredValue(f, cell, k).value >= level)
    ensures CenterValue(f, cell) >= level <==>
      StoredValue(f, cell, 0).value + StoredValue(f, cell, 1).value
      + StoredValue(f, cell, 2).value + StoredValue(f, cell, 3).value >= 4.0 * level
  {
    hide ValueAt, StoredValue;
    CornerIsStored(f, cell, 0);
    CornerIsStored(f, cell, 1);
    CornerIsStored(f, cell, 2);
    CornerIsStored(f, cell, 3);
  }

  /** Two pairs of crossed edges make two segments. */
  lemma TwoSegments(f: Field, cell: CellIndex, level: real, pairs: seq<(nat, nat)>)
    requires f.Valid() && f.shape.ContainsCell(cell.column, cell.row) && CellIsFinite(f, cell) && |pairs| == 2
    requires forall i :: 0 <= i < |pairs| ==> pairs[i].0 < 4 && pairs[i].1 < 4
    requires forall k :: 0 <= k < 4 ==> LocalIntersection(f, cell, level, k).Some?
    ensures var out := PairSegments(f, cell, level, pairs);
      && |out| == 2 && (out[0].startEdge, out[0].endEdge) == pairs[0] && (out[1].startEdge, out[1].endEdge) == pairs[1]
  {
    hide LocalIntersection;
    assert pairs[..1][..0] == [] && pairs[..1][0] == pairs[0];
    assert |PairSegments(f, cell, level, pairs[..1])| == 1;
  }

  /** A saddle is cut by two segments. Each cuts off a corner on the other side of the
      level than the mean of the four stored values. */
  lemma SaddleFollowsMean(f: Field, cell: CellIndex, level: real, i: nat)
    requires f.Valid() && f.shape.ContainsCell(cell.column, cell.row) && IsSaddle(f, cell, level) && i < 2
    ensures |CellSegments(f, cell, level)| == 2
    ensures var s := CellSegments(f, cell, level)[i];
      exists k :: 0 <= k < 4
        && {s.startEdge, s.endEdge} == {k, (k + 3) % 4}
        && ((StoredValue(f, cell, k).value >= level) !=
            (StoredValue(f, cell, 0).value + StoredValue(f, cell, 1).value
             + StoredValue(f, cell, 2).value + StoredValue(f, cell, 3).value >= 4.0 * level))
  {
    hide StoredValue, LocalIntersection, CenterValue, HighCorners, Crossed, PairSegments, CellIsFinite, SharedCorner;
    StoredIsFinite(f, cell);
    StoredCorners(f, cell, level);
    var high, centerIsHigh := HighCorners(f, cell, level), CenterValue(f, cell) >= level;
    forall k | 0 <= k < 4 ensures LocalIntersection(f, cell, level, k).Some? {
      LocalMatchesGrid(f, cell, level, k);
    }
    var pairs := EdgePairs(Mask(high), centerIsHigh);
    assert |pairs| == 2;
    TwoSegments(f, cell, level, pairs);
    SaddleFollowsCentre(high, centerIsHigh, i);
    SharedIsBetween(pairs[i].0, pairs[i].1);
  }

  lemma SharedIsBetween(s: nat, e: nat)
    requires s < 4 && e < 4 && ((s + 1) % 4 == e || (e + 1) % 4 == s)
    ensures SharedCorner(s, e) < 4 && {s, e} == {SharedCorner(s, e), (SharedCorner(s, e) + 3) % 4}
  {
  }

  lemma EdgesOfCellDistinct(cell: CellIndex, j: nat, k: nat)
    requires j < 4 && k < 4
    ensures EdgeOf(cell, j) == EdgeOf(cell, k) ==> j == k
  {
  }

  /** With every paired edge crossed, no pair is skipped. */
  lemma {:induction false} PairEnds(f: Field, cell: CellIndex, level: real, pairs: seq<(nat, nat)>, k: nat)
    requires f.Valid() && f.shape.ContainsCell(cell.column, cell.row) && CellIsFinite(f, cell) && k < 4
    requires forall i :: 0 <= i < |pairs| ==> pairs[i].0 < 4 && pairs[i].1 < 4
    requires forall i :: 0 <= i < |pairs| ==>
      LocalIntersection(f, cell, level, pairs[i].0).Some? && LocalIntersection(f, cell, level, pairs[i].1).Some?
    ensures EndsOn(PairSegments(f, cell, level, pairs), EdgeOf(cell, k)) == Uses(pairs, k)
  {
    if pairs != [] {
      hide LocalIntersection, EdgeOf;
      var prefix := pairs[..|pairs| - 1];
      var (s, e) := pairs[|pairs| - 1];
      PairEnds(f, cell, level, prefix, k);
      EdgesOfCellDistinct(cell, s, k);
      EdgesOfCellDistinct(cell, e, k);
      var segments := PairSegments(f, cell, level, prefix);
      var last := Segment(cell, s, e, LocalIntersection(f, cell, level, s).value, LocalIntersection(f, cell, level, e).value);
      assert PairSegments(f, cell, level, pairs) == segments + [last];
      assert (segments + [last])[..|segments|] == segments;
    }
  }

  lemma {:induction false} UsedEdgeCounts(pairs: seq<(nat, nat)>, i: nat)
    requires i < |pairs|
    ensures Uses(pairs, pairs[i].0) > 0 && Uses(pairs, pairs[i].1) > 0
  {
    if i < |pairs| - 1 {
      UsedEdgeCounts(pairs[..|pairs| - 1], i);
    }
  }

  /** One finite cell ends a segment once on each of its crossed edges. */
  lemma CellEndsOnEdge(f: Field, cell: CellIndex, level: real, k: nat)
    requires f.Valid() && f.shape.ContainsCell(cell.column, cell.row) && CellIsFinite(f, cell) && k < 4
    ensures IsGridEdge(f.shape, EdgeOf(cell, k))
    ensures EndsOn(CellSegments(f, cell, level), EdgeOf(cell, k)) == if Crossed(f, EdgeOf(cell, k), level) then 1 else 0
  {
    hide LocalIntersection, EdgePairs, Mask, Crossed, Uses;
    var high, centerIsHigh := HighCorners(f, cell, level), CenterValue(f, cell) >= level;
    var pairs := TablePairs(high, centerIsHigh);
    forall i | 0 <= i < |pairs|
      ensures LocalIntersection(f, cell, level, pairs[i].0).Some? && LocalIntersection(f, cell, level, pairs[i].1).Some?
    {
      UsedEdgeCounts(pairs, i);
      TableUsesCrossedEdges(high, centerIsHigh, pairs[i].0);
      TableUsesCrossedEdges(high, centerIsHigh, pairs[i].1);
      LocalMatchesGrid(f, cell, level, pairs[i].0);
      LocalMatchesGrid(f, cell, level, pairs[i].1);
    }
    PairEnds(f, cell, level, pairs, k);
    TableUsesCrossedEdges(high, centerIsHigh, k);
    LocalMatchesGrid(f, cell, level, k);
  }

  ghost function TablePairs(high: seq<bool>, centerIsHigh: bool): (pairs: seq<(nat, nat)>)
    requires |high| == 4
    ensures forall i :: 0 <= i < |pairs| ==> pairs[i].0 < 4 && pairs[i].1 < 4
  {
    EdgePairs(Mask(high), centerIsHigh)
  }

  // ---- the whole grid ----

  function SegmentsOver(f: Field, level: real, cells: seq<CellIndex>): seq<Segment>
    requires f.Valid() && forall i :: 0 <= i < |cells| ==> f.shape.ContainsCell(cells[i].column, cells[i].row)
  {
    if cells == [] then [] else CellSegments(f, cells[0], level) + SegmentsOver(f, level, cells[1..])
  }

  ghost predicate AllCells(shape: GridShape, cells: seq<CellIndex>) {
    forall i :: 0 <= i < |cells| ==> shape.ContainsCell(cells[i].column, cells[i].row)
  }

  /** The level's segments over every cell of the grid. */
  ghost function Isoline(f: Field, level: real): seq<Segment>
    requires f.Valid()
  {
    CellsFromAreCells(f.shape, 0, 0);
    SegmentsOver(f, level, CellsFrom(f.shape, 0, 0))
  }

  lemma CellsFromAreCells(shape: GridShape, column: nat, row: nat)
    requires shape.Valid() && column < shape.nx - 1
    ensures AllCells(shape, CellsFrom(shape, column, row))
  {
    var cells := CellsFrom(shape, column, row);
    forall i | 0 <= i < |cells| ensures shape.ContainsCell(cells[i].column, cells[i].row) {
      CellsFromMembers(shape, column, row, cells[i]);
    }
  }

  /** The extraction loop for one level. */
  method ExtractIsoline(f: Field, level: real) returns (segments: seq<Segment>)
    requires f.Valid()
    ensures segments == Lasting(Isoline(f, level))
  {
    hide CellSegments, IfLasting;
    var it := new GridCells(f.shape);
    ghost var all := it.Remaining();
    segments := [];
    CellsFromAreCells(f.shape, 0, 0);
    while true
      invariant it.Valid() && it.shape == f.shape
      invariant AllCells(f.shape, it.Remaining())
      invariant segments + Lasting(SegmentsOver(f, level, it.Remaining())) == Lasting(SegmentsOver(f, level, all))
      decreases |it.Remaining()|
    {
      ghost var before := it.Remaining();
      var cell := it.Next();
      if cell.None? {
        return;
      }
      assert before[1..] == it.Remaining();
      var added := ContourSegmentsForCell(f, cell.value, level);
      LastingConcat(CellSegments(f, cell.value, level), SegmentsOver(f, level, it.Remaining()));
      assert segments + (added + Lasting(SegmentsOver(f, level, it.Remaining())))
          == (segments + added) + Lasting(SegmentsOver(f, level, it.Remaining()));
      segments := segments + added;
    }
  }

  /** The two cells an edge can belong to: south or west of it, north or east of it. */
  function BeforeCell(e: NodeEdge): CellIndex {
    if e.Horizontal? then CellIndex(e.column, e.row - 1) else CellIndex(e.column - 1, e.row)
  }

  function AfterCell(e: NodeEdge): CellIndex { CellIndex(e.column, e.row) }

  ghost predicate FiniteCell(f: Field, cell: CellIndex)
    requires f.Valid()
  {
    f.shape.ContainsCell(cell.column, cell.row) && CellIsFinite(f, cell)
  }

  ghost function Share(f: Field, cell: CellIndex): nat
    requires f.Valid()
  {
    if FiniteCell(f, cell) then 1 else 0
  }

  /** How often the walk over cells visits this one, if it is finite. */
  ghost function FiniteVisits(f: Field, cells: seq<CellIndex>, cell: CellIndex): nat
    requires f.Valid()
  {
    if FiniteCell(f, cell) then Occurrences(cells, cell) else 0
  }

  /** A cell not touching e has no segment end on it. */
  lemma {:induction false} StrangerEnds(f: Field, cell: CellIndex, level: real, pairs: seq<(nat, nat)>, e: NodeEdge)
    requires f.Valid() && f.shape.ContainsCell(cell.column, cell.row) && CellIsFinite(f, cell)
    requires forall i :: 0 <= i < |pairs| ==> pairs[i].0 < 4 && pairs[i].1 < 4
    requires cell != BeforeCell(e) && cell != AfterCell(e)
    ensures EndsOn(PairSegments(f, cell, level, pairs), e) == 0
  {
    hide LocalIntersection, EdgeOf, EndsOn, CellIsFinite, BeforeCell, AfterCell;
    if pairs == [] {
      EndsOnNone(e);
    } else {
      var (s, x) := pairs[|pairs| - 1];
      StrangerEnds(f, cell, level, pairs[..|pairs| - 1], e);
      StrangerEdge(cell, s, e);
      StrangerEdge(cell, x, e);
      var start, end := LocalIntersection(f, cell, level, s), LocalIntersection(f, cell, level, x);
      var before := PairSegments(f, cell, level, pairs[..|pairs| - 1]);
      if start.Some? && end.Some? {
        EndsOnAppend(before, Segment(cell, s, x, start.value, end.value), e);
      } else {
        assert before + [] == before;
      }
    }
  }

  lemma StrangerEdge(cell: CellIndex, k: nat, e: NodeEdge)
    requires k < 4 && cell != BeforeCell(e) && cell != AfterCell(e)
    ensures EdgeOf(cell, k) != e
  {
  }

  lemma EndsOnNone(e: NodeEdge)
    ensures EndsOn([], e) == 0
  {
  }

  lemma EndsOnAppend(segments: seq<Segment>, s: Segment, e: NodeEdge)
    ensures EndsOn(segments + [s], e) == EndsOn(segments, e)
      + (if EdgeOf(s.cell, s.startEdge) == e then 1 else 0) + (if EdgeOf(s.cell, s.endEdge) == e then 1 else 0)
  {
    assert (segments + [s])[..|segments|] == segments;
  }

  lemma CellEnds(f: Field, cell: CellIndex, level: real, e: NodeEdge)
    requires f.Valid() && f.shape.ContainsCell(cell.column, cell.row) && IsGridEdge(f.shape, e)
    ensures EndsOn(CellSegments(f, cell, level), e) ==
            if Crossed(f, e, level) && (cell == BeforeCell(e) || cell == AfterCell(e)) then Share(f, cell) else 0
  {
    hide PairSegments, EdgePairs, Crossed, CellIsFinite, EndsOn, CenterValue;
    if !CellIsFinite(f, cell) {
      EndsOnNone(e);
    } else {
      if cell == AfterCell(e) {
        var k := if e.Horizontal? then 0 else 3;
        assert EdgeOf(cell, k) == e;
        CellEndsOnEdge(f, cell, level, k);
      } else if cell == BeforeCell(e) {
        var k := if e.Horizontal? then 2 else 1;
        assert EdgeOf(cell, k) == e;
        CellEndsOnEdge(f, cell, level, k);
      } else {
        StrangerEnds(f, cell, level, TablePairs(HighCorners(f, cell, level), CenterValue(f, cell) >= level), e);
      }
    }
  }

  lemma VisitsFirst(f: Field, cells: seq<CellIndex>, cell: CellIndex)
    requires f.Valid() && cells != []
    ensures FiniteVisits(f, cells, cell) == (if cells[0] == cell then Share(f, cell) else 0) + FiniteVisits(f, cells[1..], cell)
  {
  }

  lemma {:induction false} EndsOver(f: Field, level: real, cells: seq<CellIndex>, e: NodeEdge)
    requires f.Valid() && AllCells(f.shape, cells) && IsGridEdge(f.shape, e)
    ensures EndsOn(SegmentsOver(f, level, cells), e) ==
            if Crossed(f, e, level)
            then FiniteVisits(f, cells, BeforeCell(e)) + FiniteVisits(f, cells, AfterCell(e))
            else 0
  {
    hide CellSegments, Crossed, CellIsFinite, EndsOn;
    if cells == [] {
      EndsOnNone(e);
    } else {
      EndsOver(f, level, cells[1..], e);
      CellEnds(f, cells[0], level, e);
      EndsOnConcat(CellSegments(f, cells[0], level), SegmentsOver(f, level, cells[1..]), e);
      VisitsFirst(f, cells, BeforeCell(e));
      VisitsFirst(f, cells, AfterCell(e));
    }
  }

  /** Level lines are watertight: a crossed edge carries one segment end for each
      finite cell sharing it, an uncrossed edge none. So a line stops only on the
      border or beside a cell with a missing corner. */
  lemma LevelLinesWatertight(f: Field, level: real, e: NodeEdge)
    requires f.Valid() && IsGridEdge(f.shape, e)
    ensures EndsOn(Isoline(f, level), e) ==
            if Crossed(f, e, level) then Share(f, BeforeCell(e)) + Share(f, AfterCell(e)) else 0
  {
    hide Crossed;
    var cells := CellsFrom(f.shape, 0, 0);
    CellsFromAreCells(f.shape, 0, 0);
    EndsOver(f, level, cells, e);
    CellsFromOnce(f.shape, 0, 0, BeforeCell(e));
    CellsFromOnce(f.shape, 0, 0, AfterCell(e));
  }

  // ---- one point per edge ----

  ghost predicate EndsAtEdgePoints(f: Field, level: real, s: Segment)
    requires f.Valid()
  {
    && s.startEdge < 4 && s.endEdge < 4 && f.shape.ContainsCell(s.cell.column, s.cell.row)
    && IsGridEdge(f.shape, EdgeOf(s.cell, s.startEdge)) && IsGridEdge(f.shape, EdgeOf(s.cell, s.endEdge))
    && Crossed(f, EdgeOf(s.cell, s.startEdge), level) && Crossed(f, EdgeOf(s.cell, s.endEdge), level)
    && s.start == EdgePoint(f, EdgeOf(s.cell, s.startEdge), level)
    && s.end == EdgePoint(f, EdgeOf(s.cell, s.endEdge), level)
  }

  lemma {:induction false} PairsEndAtEdgePoints(f: Field, cell: CellIndex, level: real, pairs: seq<(nat, nat)>, i: nat)
    requires f.Valid() && f.shape.ContainsCell(cell.column, cell.row) && CellIsFinite(f, cell)
    requires forall i :: 0 <= i < |pairs| ==> pairs[i].0 < 4 && pairs[i].1 < 4
    requires i < |PairSegments(f, cell, level, pairs)|
    ensures EndsAtEdgePoints(f, level, PairSegments(f, cell, level, pairs)[i])
  {
    hide LocalIntersection, Crossed, EdgePoint;
    var (s, e) := pairs[|pairs| - 1];
    var prefix := PairSegments(f, cell, level, pairs[..|pairs| - 1]);
    if i < |prefix| {
      PairsEndAtEdgePoints(f, cell, level, pairs[..|pairs| - 1], i);
    } else {
      LocalMatchesGrid(f, cell, level, s);
      LocalMatchesGrid(f, cell, level, e);
    }
  }

  lemma CellEndsAtEdgePoints(f: Field, cell: CellIndex, level: real, i: nat)
    requires f.Valid() && f.shape.ContainsCell(cell.column, cell.row) && i < |CellSegments(f, cell, level)|
    ensures EndsAtEdgePoints(f, level, CellSegments(f, cell, level)[i])
  {
    hide EndsAtEdgePoints, PairSegments, EdgePairs, Mask, CenterValue;
    var high, centerIsHigh := HighCorners(f, cell, level), CenterValue(f, cell) >= level;
    PairsEndAtEdgePoints(f, cell, level, TablePairs(high, centerIsHigh), i);
  }

  lemma {:induction false} SegmentsEndAtEdgePoints(f: Field, level: real, cells: seq<CellIndex>, i: nat)
    requires f.Valid() && AllCells(f.shape, cells) && i < |SegmentsOver(f, level, cells)|
    ensures EndsAtEdgePoints(f, level, SegmentsOver(f, level, cells)[i])
  {
    hide CellSegments, EndsAtEdgePoints;
    var first := CellSegments(f, cells[0], level);
    if i < |first| {
      CellEndsAtEdgePoints(f, cells[0], level, i);
    } else {
      SegmentsEndAtEdgePoints(f, level, cells[1..], i - |first|);
    }
  }

  /** Every segment joins two crossed edges at the one point the grid assigns to
      each, so the ends counted above coincide. */
  lemma SegmentEndsCoincide(f: Field, level: real, i: nat)
    requires f.Valid() && i < |Isoline(f, level)|
    ensures EndsAtEdgePoints(f, level, Isoline(f, level)[i])
  {
    CellsFromAreCells(f.shape, 0, 0);
    SegmentsEndAtEdgePoints(f, level, CellsFrom(f.shape, 0, 0), i);
  }

  lemma NodesOfEdge(f: Field, e: NodeEdge)
    requires f.Valid() && IsGridEdge(f.shape, e)
    ensures var first := e.row * f.shape.nx + e.column;
      var second := if e.Horizontal? then first + 1 else first + f.shape.nx;
      && 0 <= first && second < |f.values| && second < |f.points|
      && FirstValue(f, e) == f.values[first] && SecondValue(f, e) == f.values[second]
      && PointAt(f, e.column, e.row) == f.points[first] && SecondPoint(f, e) == f.points[second]
  {
    assert (e.row + 1) * f.shape.nx == e.row * f.shape.nx + f.shape.nx;
    if e.Horizontal? {
      NodeInRange(f.shape, e.column + 1, e.row);
    } else {
      NodeInRange(f.shape, e.column, e.row + 1);
    }
  }

  /** That point divides the line between the edge's two stored points as the level
      divides their stored values. */
  lemma EdgePointDivides(f: Field, e: NodeEdge, level: real) returns (w: real)
    requires f.Valid() && IsGridEdge(f.shape, e) && Crossed(f, e, level)
    ensures var first := e.row * f.shape.nx + e.column;
      var second := if e.Horizontal? then first + 1 else first + f.shape.nx;
      && 0 <= first && second < |f.values| && second < |f.points|
      && f.values[first].Some? && f.values[second].Some? && 0.0 <= w <= 1.0
      && f.values[first].value + (f.values[second].value - f.values[first].value) * w == level
      && EdgePoint(f, e, level).x == f.points[first].x + (f.points[second].x - f.points[first].x) * w
      && EdgePoint(f, e, level).y == f.points[first].y + (f.points[second].y - f.points[first].y) * w
  {
    hide FirstValue, SecondValue, PointAt, SecondPoint, Nesting.Weight;
    NodesOfEdge(f, e);
    var a, b := FirstValue(f, e).value, SecondValue(f, e).value;
    w := Nesting.Weight(a, b, level);
    Nesting.WeightCross(a, b, level);
    Nesting.WeightInUnit(a, b, level);
  }
}
