/** Four triangles around a hub: each pair of neighbours shares one spoke, and opposite
    ones share the hub alone. */
module ContourWheel {
  import opened ContourGeometry
  import opened ContourBandShape

  function Minus(p: Point2, q: Point2): Point2 { Point2(p.x - q.x, p.y - q.y) }

  /** Twice the signed area of the triangle a, b, c. */
  function Det(a: Point2, b: Point2, c: Point2): real { Cross(Minus(b, a), Minus(c, a)) }

  function After(k: nat): nat { if k == 3 then 0 else k + 1 }

  function Before(k: nat): (b: nat)
    ensures k < 4 ==> b < 4 && After(b) == k
  {
    if k == 0 then 3 else k - 1
  }

  /** Every triangle hub, rim[k], rim[k + 1] turns the same way: the hub sees the rim in
      order. */
  ghost predicate Around(hub: Point2, rim: seq<Point2>) {
    && |rim| == 4
    && ((forall k :: 0 <= k < 4 ==> Det(hub, rim[k], rim[After(k)]) > 0.0)
     || (forall k :: 0 <= k < 4 ==> Det(hub, rim[k], rim[After(k)]) < 0.0))
  }

  lemma SpotCross(a: Point2, b: Point2, c: Point2, u: real, v: real, w: Point2)
    ensures Cross(Minus(Spot(a, b, c, u, v), a), w) == u * Cross(Minus(b, a), w) + v * Cross(Minus(c, a), w)
  {
    var d, e := Minus(b, a), Minus(c, a);
    var x, y := u * d.x + v * e.x, u * d.y + v * e.y;
    assert Minus(Spot(a, b, c, u, v), a) == Point2(x, y);
    Expand(u, d, v, e, w);
  }

  lemma Expand(u: real, d: Point2, v: real, e: Point2, w: Point2)
    ensures (u * d.x + v * e.x) * w.y - w.x * (u * d.y + v * e.y) == u * Cross(d, w) + v * Cross(e, w)
  {
    assert (u * d.x + v * e.x) * w.y == u * (d.x * w.y) + v * (e.x * w.y);
    assert w.x * (u * d.y + v * e.y) == u * (w.x * d.y) + v * (w.x * e.y);
    assert u * Cross(d, w) == u * (d.x * w.y) - u * (w.x * d.y);
    assert v * Cross(e, w) == v * (e.x * w.y) - v * (w.x * e.y);
  }

  lemma CrossFlips(p: Point2, q: Point2)
    ensures Cross(p, q) == -Cross(q, p)
  {
  }

  lemma ZeroProduct(x: real, d: real)
    requires x * d == 0.0 && d != 0.0
    ensures x == 0.0
  {
  }

  lemma SignedProduct(x: real, d: real) returns (p: real)
    requires x >= 0.0
    ensures p == x * d
    ensures d > 0.0 ==> p >= 0.0 && (p == 0.0 ==> x == 0.0)
    ensures d < 0.0 ==> p <= 0.0 && (p == 0.0 ==> x == 0.0)
    ensures d == 0.0 ==> p == 0.0
  {
    p := x * d;
    if p == 0.0 && d != 0.0 { ZeroProduct(x, d); }
  }

  /** Coordinates in a proper triangle are unique. */
  lemma SpotUnique(a: Point2, b: Point2, c: Point2, u: real, v: real, u': real, v': real)
    requires Det(a, b, c) != 0.0 && Spot(a, b, c, u, v) == Spot(a, b, c, u', v')
    ensures u == u' && v == v'
  {
    hide Spot, Cross, Det;
    SpotSides(a, b, c, u, v);
    SpotSides(a, b, c, u', v');
    var D := Det(a, b, c);
    ZeroProduct(u - u', D);
    ZeroProduct(v - v', D);
  }

  lemma SpotSides(a: Point2, b: Point2, c: Point2, u: real, v: real)
    ensures Cross(Minus(Spot(a, b, c, u, v), a), Minus(c, a)) == u * Det(a, b, c)
    ensures Cross(Minus(b, a), Minus(Spot(a, b, c, u, v), a)) == v * Det(a, b, c)
  {
    hide Spot, Cross;
    var d, e, z := Minus(b, a), Minus(c, a), Minus(Spot(a, b, c, u, v), a);
    CrossSelf(d);
    CrossSelf(e);
    CrossFlips(e, d);
    CrossFlips(d, z);
    SpotCross(a, b, c, u, v, e);
    SpotCross(a, b, c, u, v, d);
    assert v * Cross(e, e) == 0.0 && u * Cross(d, d) == 0.0;
    assert v * Cross(e, d) == -(v * Cross(d, e));
  }

  // ---- where two sectors meet ----

  /** Neighbouring sectors meet on the spoke between them. */
  lemma NeighboursMeet(m: Point2, a: Point2, b: Point2, c: Point2, u: real, v: real, u': real, v': real)
    requires (Det(m, a, b) > 0.0 && Det(m, b, c) > 0.0) || (Det(m, a, b) < 0.0 && Det(m, b, c) < 0.0)
    requires u >= 0.0 && v' >= 0.0 && Spot(m, a, b, u, v) == Spot(m, b, c, u', v')
    ensures u == 0.0 && v' == 0.0
  {
    hide Spot, Cross;
    var e := Minus(b, m);
    CrossSelf(e);
    CrossFlips(Minus(c, m), e);
    SpotCross(m, a, b, u, v, e);
    SpotCross(m, b, c, u', v', e);
    var p := SignedProduct(u, Det(m, a, b));
    var q := SignedProduct(v', Det(m, b, c));
    assert v * Cross(e, e) == 0.0 && u' * Cross(e, e) == 0.0;
    assert p == v' * Cross(Minus(c, m), e) == -q;
  }

  /** The arithmetic of two opposite sectors. */
  lemma OppositeArithmetic(u: real, v: real, s: real, t: real, ab: real, bc: real, cd: real, da: real, ac: real)
    requires u >= 0.0 && v >= 0.0 && s >= 0.0 && t >= 0.0
    requires (ab > 0.0 && bc > 0.0 && cd > 0.0 && da > 0.0) || (ab < 0.0 && bc < 0.0 && cd < 0.0 && da < 0.0)
    requires v * ab == s * ac - t * da && -(u * ac) - v * bc == t * cd
    ensures v == 0.0 && t == 0.0 && (ac != 0.0 ==> u == 0.0 && s == 0.0)
  {
    var vab := SignedProduct(v, ab);
    var sac := SignedProduct(s, ac);
    var tda := SignedProduct(t, da);
    var uac := SignedProduct(u, ac);
    var vbc := SignedProduct(v, bc);
    var tcd := SignedProduct(t, cd);
  }

  /** Opposite sectors meet at the hub only. */
  lemma OppositesMeet(m: Point2, a: Point2, b: Point2, c: Point2, d: Point2, u: real, v: real, s: real, t: real)
    requires
      || (Det(m, a, b) > 0.0 && Det(m, b, c) > 0.0 && Det(m, c, d) > 0.0 && Det(m, d, a) > 0.0)
      || (Det(m, a, b) < 0.0 && Det(m, b, c) < 0.0 && Det(m, c, d) < 0.0 && Det(m, d, a) < 0.0)
    requires u >= 0.0 && v >= 0.0 && s >= 0.0 && t >= 0.0 && Spot(m, a, b, u, v) == Spot(m, c, d, s, t)
    ensures u == 0.0 && v == 0.0 && s == 0.0 && t == 0.0
  {
    hide Spot, Cross;
    var da, db, dc, dd := Minus(a, m), Minus(b, m), Minus(c, m), Minus(d, m);
    CrossSelf(da);
    CrossSelf(dc);
    CrossSelf(db);
    CrossFlips(db, da);
    CrossFlips(dc, da);
    CrossFlips(dc, db);
    CrossFlips(dd, dc);
    SpotCross(m, a, b, u, v, da);
    SpotCross(m, c, d, s, t, da);
    SpotCross(m, a, b, u, v, dc);
    SpotCross(m, c, d, s, t, dc);
    assert v * Cross(db, da) == s * Cross(dc, da) + t * Cross(dd, da);
    assert u * Cross(da, dc) + v * Cross(db, dc) == t * Cross(dd, dc);
    OppositeArithmetic(u, v, s, t, Det(m, a, b), Det(m, b, c), Det(m, c, d), Det(m, d, a), Cross(da, dc));
    if Cross(da, dc) == 0.0 {
      SpotCross(m, a, b, u, v, db);
      SpotCross(m, c, d, s, t, db);
      var p := SignedProduct(u, Det(m, a, b));
      var q := SignedProduct(s, Det(m, b, c));
      assert p == s * Cross(dc, db) == -q;
    }
  }

  /** A point other than the hub that lies in two sectors lies on the spoke they share. */
  lemma SectorsMeet(m: Point2, rim: seq<Point2>, k: nat, l: nat, u: real, v: real, s: real, t: real)
    requires Around(m, rim) && k < 4 && l < 4 && k != l
    requires u >= 0.0 && v >= 0.0 && s >= 0.0 && t >= 0.0
    requires Spot(m, rim[k], rim[After(k)], u, v) == Spot(m, rim[l], rim[After(l)], s, t)
    ensures || (u == 0.0 && v == 0.0 && s == 0.0 && t == 0.0)
            || (l == After(k) && u == 0.0 && t == 0.0)
            || (k == After(l) && v == 0.0 && s == 0.0)
  {
    hide Spot, Det;
    var k1 := After(k);
    var k2 := After(k1);
    var k3 := After(k2);
    assert After(k3) == k && l in {k1, k2, k3};
    if l == k1 {
      NeighboursMeet(m, rim[k], rim[k1], rim[k2], u, v, s, t);
    } else if l == k2 {
      OppositesMeet(m, rim[k], rim[k1], rim[k2], rim[k3], u, v, s, t);
    } else {
      NeighboursMeet(m, rim[l], rim[k], rim[k1], s, t, u, v);
    }
  }

  // ---- convex cells ----

  function Centroid(c: seq<Point2>): Point2
    requires |c| == 4
  {
    Point2((c[0].x + c[1].x + c[2].x + c[3].x) * 0.25, (c[0].y + c[1].y + c[2].y + c[3].y) * 0.25)
  }

  /** Every corner turns the same way. */
  ghost predicate Convex(c: seq<Point2>) {
    && |c| == 4
    && ((forall k :: 0 <= k < 4 ==> Det(c[k], c[After(k)], c[After(After(k))]) > 0.0)
     || (forall k :: 0 <= k < 4 ==> Det(c[k], c[After(k)], c[After(After(k))]) < 0.0))
  }

  lemma CentroidDet(a: Point2, b: Point2, c: Point2, d: Point2)
    ensures Det(Centroid([a, b, c, d]), a, b) == (Det(a, b, c) + Det(d, a, b)) * 0.25
    ensures Det(Centroid([b, c, d, a]), a, b) == (Det(a, b, c) + Det(d, a, b)) * 0.25
    ensures Det(Centroid([c, d, a, b]), a, b) == (Det(a, b, c) + Det(d, a, b)) * 0.25
    ensures Det(Centroid([d, a, b, c]), a, b) == (Det(a, b, c) + Det(d, a, b)) * 0.25
  {
    var m := Centroid([a, b, c, d]);
    DetMoves(m, a, b);
    DetMoves(d, a, b);
    var x, y := b.x - a.x, b.y - a.y;
    assert Det(a, b, m) == x * (m.y - a.y) - (m.x - a.x) * y;
    assert Det(a, b, c) == x * (c.y - a.y) - (c.x - a.x) * y;
    assert Det(a, b, d) == x * (d.y - a.y) - (d.x - a.x) * y;
    QuarterSum(x, b.y - a.y, c.y - a.y, d.y - a.y, m.y - a.y);
    QuarterSum(y, b.x - a.x, c.x - a.x, d.x - a.x, m.x - a.x);
  }

  lemma QuarterSum(x: real, p: real, q: real, r: real, m: real)
    requires m == (p + q + r) * 0.25
    ensures x * m == (x * p + x * q + x * r) * 0.25
  {
  }

  lemma DetMoves(a: Point2, b: Point2, c: Point2)
    ensures Det(a, b, c) == Det(b, c, a)
  {
  }

  /** The centroid of a convex cell sees its corners in order. */
  lemma ConvexAround(c: seq<Point2>)
    requires Convex(c)
    ensures Around(Centroid(c), c)
  {
    hide Det;
    assert c == [c[0], c[1], c[2], c[3]];
    CentroidDet(c[0], c[1], c[2], c[3]);
    CentroidDet(c[1], c[2], c[3], c[0]);
    CentroidDet(c[2], c[3], c[0], c[1]);
    CentroidDet(c[3], c[0], c[1], c[2]);
    var m := Centroid(c);
    assert Det(m, c[0], c[1]) == (Det(c[0], c[1], c[2]) + Det(c[3], c[0], c[1])) * 0.25;
    assert Det(m, c[1], c[2]) == (Det(c[1], c[2], c[3]) + Det(c[0], c[1], c[2])) * 0.25;
    assert Det(m, c[2], c[3]) == (Det(c[2], c[3], c[0]) + Det(c[1], c[2], c[3])) * 0.25;
    assert Det(m, c[3], c[0]) == (Det(c[3], c[0], c[1]) + Det(c[2], c[3], c[0])) * 0.25;
    assert After(0) == 1 && After(1) == 2 && After(2) == 3 && After(3) == 0;
  }

  /** The cells between two different columns and two different rows are convex. */
  lemma RectangleConvex(x0: real, x1: real, y0: real, y1: real)
    requires x0 != x1 && y0 != y1
    ensures Convex([Point2(x0, y0), Point2(x1, y0), Point2(x1, y1), Point2(x0, y1)])
  {
    var c := [Point2(x0, y0), Point2(x1, y0), Point2(x1, y1), Point2(x0, y1)];
    var dx, dy := x1 - x0, y1 - y0;
    assert dx * dy > 0.0 || dx * dy < 0.0;
    assert Det(c[0], c[1], c[2]) == dx * dy && Det(c[1], c[2], c[3]) == dx * dy by { RectangleTurns(x0, x1, y0, y1); }
    assert Det(c[2], c[3], c[0]) == dx * dy && Det(c[3], c[0], c[1]) == dx * dy by { RectangleTurns(x0, x1, y0, y1); }
    hide Det;
    assert forall k :: 0 <= k < 4 ==> Det(c[k], c[After(k)], c[After(After(k))]) == dx * dy;
  }

  lemma RectangleTurns(x0: real, x1: real, y0: real, y1: real)
    ensures var a, b, c, d, v := Point2(x0, y0), Point2(x1, y0), Point2(x1, y1), Point2(x0, y1), (x1 - x0) * (y1 - y0);
      Det(a, b, c) == v && Det(b, c, d) == v && Det(c, d, a) == v && Det(d, a, b) == v
  {
  }
}
