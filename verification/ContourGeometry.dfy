/** Planar points and the shoelace area of closed rings. */
module ContourGeometry {
  import opened Basics

  datatype Point2 = Point2(x: real, y: real)

  function Lerp(p: Point2, q: Point2, t: real): Point2 {
    Point2(p.x + (q.x - p.x) * t, p.y + (q.y - p.y) * t)
  }

  function Cross(p: Point2, q: Point2): real { p.x * q.y - q.x * p.y }

  /** Shoelace sum along the open path pen, vs[0], vs[1], ... */
  function PathSum(pen: Point2, vs: seq<Point2>): real
    decreases |vs|
  {
    if vs == [] then 0.0 else Cross(pen, vs[0]) + PathSum(vs[0], vs[1..])
  }

  /** Shoelace sum around the closed ring. */
  function LoopSum(vs: seq<Point2>): real {
    if vs == [] then 0.0 else PathSum(vs[|vs| - 1], vs)
  }

  function Area(vs: seq<Point2>): real {
    if |vs| < 3 then 0.0 else LoopSum(vs) * 0.5
  }

  /** Rings of fewer than three vertices enclose nothing anyway. */
  lemma AreaIsHalfLoop(vs: seq<Point2>)
    ensures Area(vs) == LoopSum(vs) * 0.5
  {
    if |vs| == 1 {
      assert PathSum(vs[0], vs) == Cross(vs[0], vs[0]) + PathSum(vs[0], vs[1..]);
    } else if |vs| == 2 {
      assert vs[1..][1..] == [];
      assert PathSum(vs[0], vs[1..]) == Cross(vs[0], vs[1]);
    }
  }

  lemma {:induction false} PathSumAppend(pen: Point2, vs: seq<Point2>, p: Point2)
    ensures PathSum(pen, vs + [p])
         == PathSum(pen, vs) + Cross(if vs == [] then pen else vs[|vs| - 1], p)
    decreases |vs|
  {
    if vs == [] {
      assert ([p])[1..] == [];
    } else {
      assert (vs + [p])[1..] == vs[1..] + [p];
      PathSumAppend(vs[0], vs[1..], p);
    }
  }

  /** Starting the ring at its second vertex gives the same sum. */
  lemma LoopSumFromFirst(vs: seq<Point2>)
    requires vs != []
    ensures LoopSum(vs) == PathSum(vs[0], vs[1..] + [vs[0]])
  {
    PathSumAppend(vs[0], vs[1..], vs[0]);
    assert |vs| > 1 ==> vs[1..][|vs| - 2] == vs[|vs| - 1];
  }

  lemma PathSumNone(pen: Point2)
    ensures PathSum(pen, []) == 0.0
  {
  }

  lemma PathSumFirst(pen: Point2, vs: seq<Point2>)
    requires vs != []
    ensures PathSum(pen, vs) == Cross(pen, vs[0]) + PathSum(vs[0], vs[1..])
  {
  }

  lemma CrossSelf(p: Point2)
    ensures Cross(p, p) == 0.0
  {
  }

  lemma CrossIs(p: Point2, q: Point2)
    ensures Cross(p, q) == p.x * q.y - q.x * p.y
  {
  }

  /** The accumulating loop over consecutive vertices. */
  method SignedArea(vs: seq<Point2>) returns (area: real)
    ensures area == Area(vs)
  {
    if |vs| < 3 {
      return 0.0;
    }
    hide PathSum, LoopSum, Cross;
    LoopSumFromFirst(vs);
    PathSumNone(vs[0]);
    ghost var wrapped := vs[1..] + [vs[0]];
    var sum := 0.0;
    for index := 0 to |vs|
      invariant sum == PathSum(vs[0], wrapped[..index])
    {
      var current, next := vs[index], vs[if index + 1 == |vs| then 0 else index + 1];
      assert wrapped[..index + 1] == wrapped[..index] + [next];
      PathSumAppend(vs[0], wrapped[..index], next);
      CrossIs(current, next);
      sum := sum + (current.x * next.y - next.x * current.y);
    }
    assert wrapped[..|vs|] == wrapped;
    return sum * 0.5;
  }

  // ---- duplicate vertices ----

  /** Geometric tolerances are exact over the reals. */
  const GEOMETRY_EPSILON: real := 0.0

  predicate SamePoint(p: Point2, q: Point2) {
    Abs(p.x - q.x) <= GEOMETRY_EPSILON && Abs(p.y - q.y) <= GEOMETRY_EPSILON
  }

  /** vs without vertices that repeat their predecessor. */
  function DropRepeats(vs: seq<Point2>): (r: seq<Point2>)
    ensures vs != [] ==> r != [] && r[0] == vs[0] && r[|r| - 1] == vs[|vs| - 1]
  {
    if |vs| <= 1 then vs
    else
      var rest := DropRepeats(vs[1..]);
      if SamePoint(vs[0], vs[1]) then rest else [vs[0]] + rest
  }

  /** Drop consecutive repeats, then a last vertex equal to the first. */
  function SanitizeRing(vs: seq<Point2>): seq<Point2> {
    var ring := DropRepeats(vs);
    if |ring| >= 2 && SamePoint(ring[0], ring[|ring| - 1]) then ring[..|ring| - 1] else ring
  }

  lemma {:induction false} DropRepeatsSum(pen: Point2, vs: seq<Point2>)
    ensures PathSum(pen, DropRepeats(vs)) == PathSum(pen, vs)
    decreases |vs|
  {
    if |vs| > 1 {
      DropRepeatsSum(vs[0], vs[1..]);
      var rest := DropRepeats(vs[1..]);
      if SamePoint(vs[0], vs[1]) {
        CrossSelf(vs[0]);
        PathSumFirst(vs[0], rest);
        PathSumFirst(pen, rest);
      } else {
        assert ([vs[0]] + rest)[1..] == rest;
      }
    }
  }

  /** Sanitizing never changes the enclosed area. */
  lemma SanitizeKeepsLoop(vs: seq<Point2>)
    ensures LoopSum(SanitizeRing(vs)) == LoopSum(vs)
  {
    if vs != [] {
      var ring := DropRepeats(vs);
      DropRepeatsSum(vs[|vs| - 1], vs);
      if |ring| >= 2 && SamePoint(ring[0], ring[|ring| - 1]) {
        var body := ring[..|ring| - 1];
        assert ring == body + [ring[0]];
        PathSumAppend(ring[0], body, ring[0]);
        assert body[0] == ring[0];
        var tail := body[1..];
        assert PathSum(ring[0], body) == Cross(ring[0], ring[0]) + PathSum(ring[0], tail);
        assert LoopSum(body) == Cross(body[|body| - 1], ring[0]) + PathSum(ring[0], tail);
      }
    }
  }

  /** The pushing loop. */
  method Sanitize(vs: seq<Point2>) returns (ring: seq<Point2>)
    ensures ring == SanitizeRing(vs)
  {
    ring := [];
    for i := 0 to |vs|
      invariant ring == DropRepeats(vs[..i])
    {
      DropRepeatsAppend(vs[..i], vs[i]);
      assert vs[..i + 1] == vs[..i] + [vs[i]];
      if ring == [] || !SamePoint(ring[|ring| - 1], vs[i]) {
        ring := ring + [vs[i]];
      }
    }
    assert vs[..|vs|] == vs;
    if |ring| >= 2 && SamePoint(ring[0], ring[|ring| - 1]) {
      ring := ring[..|ring| - 1];
    }
  }

  lemma {:induction false} DropRepeatsAppend(vs: seq<Point2>, p: Point2)
    ensures DropRepeats(vs + [p])
         == if vs != [] && SamePoint(vs[|vs| - 1], p) then DropRepeats(vs) else DropRepeats(vs) + [p]
  {
    if |vs| > 1 {
      assert (vs + [p])[1..] == vs[1..] + [p];
      DropRepeatsAppend(vs[1..], p);
    } else if |vs| == 1 {
      assert (vs + [p])[1..] == [p];
    }
  }
}
