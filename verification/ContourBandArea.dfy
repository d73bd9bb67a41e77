/** The kept ring of a triangle in a band has area, on the side of the triangle's own. */
module ContourBandArea {
  import opened ContourGeometry
  import opened ContourBandShape
  import opened ContourWheel
  import opened ContourBandRing
  import opened ContourBandKept

  // ---- the shoelace sum in the triangle's coordinates ----

  function Turn(p: real, q: real): real { Along(p) * Across(q) - Along(q) * Across(p) }

  ghost function TurnPath(pen: real, ps: seq<real>): real
    decreases |ps|
  {
    if ps == [] then 0.0 else Turn(pen, ps[0]) + TurnPath(ps[0], ps[1..])
  }

  function Last(pen: real, ps: seq<real>): real { if ps == [] then pen else ps[|ps| - 1] }

  ghost function TurnLoop(ps: seq<real>): real { if ps == [] then 0.0 else TurnPath(ps[|ps| - 1], ps) }

  lemma {:induction false} TurnPathConcat(pen: real, ps: seq<real>, qs: seq<real>)
    ensures TurnPath(pen, ps + qs) == TurnPath(pen, ps) + TurnPath(Last(pen, ps), qs)
    decreases |ps|
  {
    hide Turn;
    if ps == [] {
      assert ps + qs == qs;
    } else {
      assert (ps + qs)[1..] == ps[1..] + qs;
      TurnPathConcat(ps[0], ps[1..], qs);
    }
  }

  lemma SpotsCross(a: Point2, b: Point2, c: Point2, u: real, v: real, u': real, v': real)
    ensures Cross(Spot(a, b, c, u, v), Spot(a, b, c, u', v'))
         == Det(a, b, c) * (u * v' - u' * v) + Cross(a, Spot(a, b, c, u', v')) - Cross(a, Spot(a, b, c, u, v))
  {
    hide Spot, Det;
    var p, q := Spot(a, b, c, u, v), Spot(a, b, c, u', v');
    CrossFromCorner(a, p, q);
    var d, e := Minus(b, a), Minus(c, a);
    SpotCross(a, b, c, u, v, Minus(q, a));
    CrossFlips(d, Minus(q, a));
    CrossFlips(e, Minus(q, a));
    SpotSides(a, b, c, u', v');
    assert u * Cross(d, Minus(q, a)) == u * (v' * Det(a, b, c));
    assert v * Cross(e, Minus(q, a)) == v * -(u' * Det(a, b, c));
    Regroup(u, v, u', v', Det(a, b, c));
  }

  lemma Regroup(u: real, v: real, u': real, v': real, d: real)
    ensures u * (v' * d) + v * -(u' * d) == d * (u * v' - u' * v)
  {
  }

  lemma CrossFromCorner(a: Point2, p: Point2, q: Point2)
    ensures Cross(p, q) == Cross(Minus(p, a), Minus(q, a)) + Cross(a, q) - Cross(a, p)
  {
  }

  lemma {:induction false} PathTurns(a: Point2, b: Point2, c: Point2, pen: real, ps: seq<real>)
    ensures PathSum(Perimeter(a, b, c, pen), Perimeters(a, b, c, ps))
         == Det(a, b, c) * TurnPath(pen, ps)
            + Cross(a, Perimeter(a, b, c, Last(pen, ps))) - Cross(a, Perimeter(a, b, c, pen))
    decreases |ps|
  {
    hide Spot, Det, Cross, Along, Across;
    if ps != [] {
      var vs := Perimeters(a, b, c, ps);
      assert vs[1..] == Perimeters(a, b, c, ps[1..]);
      PathTurns(a, b, c, ps[0], ps[1..]);
      SpotsCross(a, b, c, Along(pen), Across(pen), Along(ps[0]), Across(ps[0]));
      Distribute(Det(a, b, c), Turn(pen, ps[0]), TurnPath(ps[0], ps[1..]));
    }
  }

  lemma Distribute(d: real, x: real, y: real)
    ensures d * (x + y) == d * x + d * y
  {
  }

  lemma LoopTurns(a: Point2, b: Point2, c: Point2, ps: seq<real>)
    ensures LoopSum(Perimeters(a, b, c, ps)) == Det(a, b, c) * TurnLoop(ps)
  {
    hide Perimeter, Det, Cross;
    if ps != [] { PathTurns(a, b, c, ps[|ps| - 1], ps); }
  }

  // ---- rising positions bend one way ----

  function Mul(x: real, y: real): real { x * y }

  lemma MulPositive(x: real, y: real)
    requires x >= 0.0 && y >= 0.0
    ensures Mul(x, y) >= 0.0 && (x > 0.0 && y > 0.0 ==> Mul(x, y) > 0.0)
  {
  }

  /** Turns between positions on given sides: AB at x, BC at 1 + y and 1 + z, CA at 3 - t. */
  lemma TurnABtoBC(x: real, y: real)
    requires 0.0 <= x <= 1.0 && 0.0 <= y <= 1.0
    ensures Turn(x, 1.0 + y) == Mul(x, y)
  {
  }

  lemma TurnBCtoBC(y: real, z: real)
    requires 0.0 <= y <= 1.0 && 0.0 <= z <= 1.0
    ensures Turn(1.0 + y, 1.0 + z) == z - y
  {
    assert (1.0 - y) * z - (1.0 - z) * y == z - y;
  }

  lemma TurnBCtoCA(z: real, t: real)
    requires 0.0 <= z <= 1.0 && 0.0 <= t <= 1.0
    ensures Turn(1.0 + z, 3.0 - t) == Mul(1.0 - z, t)
  {
  }

  lemma TurnABtoCA(x: real, t: real)
    requires 0.0 <= x <= 1.0 && 0.0 <= t <= 1.0
    ensures Turn(x, 3.0 - t) == Mul(x, t)
  {
  }

  lemma TurnSameSide(x: real, x': real, t: real, t': real)
    requires 0.0 <= x <= 1.0 && 0.0 <= x' <= 1.0 && 0.0 <= t <= 1.0 && 0.0 <= t' <= 1.0
    ensures Turn(x, x') == 0.0 && Turn(3.0 - t, 3.0 - t') == 0.0
  {
  }

  /** Twice the area of the triangle of three positions. */
  function Bend(p: real, q: real, r: real): real { Turn(p, q) + Turn(q, r) - Turn(p, r) }

  predicate OneSide(p: real, q: real, r: real) {
    r <= 1.0 || (1.0 <= p && r <= 2.0) || 2.0 <= p || (q <= 1.0 && r == 3.0)
  }

  lemma BendFromAB(p: real, q: real, r: real)
    requires 0.0 < p < q <= 1.0 && q < r <= 3.0
    ensures Bend(p, q, r) >= 0.0 && (!OneSide(p, q, r) ==> Bend(p, q, r) > 0.0)
  {
    hide Turn, Mul;
    TurnSameSide(p, q, 0.0, 0.0);
    if r <= 1.0 {
      TurnSameSide(q, r, 0.0, 0.0);
      TurnSameSide(p, r, 0.0, 0.0);
    } else {
      var z := if r <= 2.0 then r - 1.0 else 3.0 - r;
      if r <= 2.0 {
        TurnABtoBC(p, z);
        TurnABtoBC(q, z);
      } else {
        TurnABtoCA(p, z);
        TurnABtoCA(q, z);
      }
      MulPositive(q - p, z);
      MulLess(q, p, z);
    }
  }

  lemma MulLess(x: real, y: real, z: real)
    ensures Mul(x, z) - Mul(y, z) == Mul(x - y, z) && Mul(z, x) - Mul(z, y) == Mul(z, x - y)
  {
  }

  lemma BendByBC(p: real, q: real, r: real)
    requires 0.0 < p < q < r <= 3.0 && 1.0 < q <= 2.0
    ensures Bend(p, q, r) >= 0.0 && (!OneSide(p, q, r) ==> Bend(p, q, r) > 0.0)
  {
    hide Turn, Mul;
    var y := q - 1.0;
    if p <= 1.0 {
      TurnABtoBC(p, y);
      if r <= 2.0 {
        var z := r - 1.0;
        TurnBCtoBC(y, z);
        TurnABtoBC(p, z);
        MulPositive(z - y, 1.0 - p);
        AcrossIdentity(p, y, z);
      } else {
        var t := 3.0 - r;
        TurnBCtoCA(y, t);
        TurnABtoCA(p, t);
        MulPositive(p, y);
        MulPositive(Mul(p, y), 1.0 - t);
        MulPositive(1.0 - y, t);
        MulPositive(Mul(1.0 - y, t), 1.0 - p);
        RoundIdentity(p, y, t);
      }
    } else {
      var x := p - 1.0;
      TurnBCtoBC(x, y);
      if r <= 2.0 {
        TurnBCtoBC(y, r - 1.0);
        TurnBCtoBC(x, r - 1.0);
      } else {
        var t := 3.0 - r;
        TurnBCtoCA(y, t);
        TurnBCtoCA(x, t);
        MulPositive(y - x, 1.0 - t);
        BackIdentity(x, y, t);
      }
    }
  }

  lemma AcrossIdentity(x: real, y: real, z: real)
    ensures Mul(x, y) + (z - y) - Mul(x, z) == Mul(z - y, 1.0 - x)
  {
  }

  lemma RoundIdentity(x: real, y: real, t: real)
    ensures Mul(x, y) + Mul(1.0 - y, t) - Mul(x, t) == Mul(Mul(x, y), 1.0 - t) + Mul(Mul(1.0 - y, t), 1.0 - x)
  {
    var p, q := x * y, y * t;
    assert p * (1.0 - t) == p - p * t;
    assert (1.0 - y) * t == t - q;
    assert (t - q) * (1.0 - x) == t - q - t * x + q * x;
    assert p * t == q * x;
  }

  lemma BackIdentity(x: real, y: real, t: real)
    ensures (y - x) + Mul(1.0 - y, t) - Mul(1.0 - x, t) == Mul(y - x, 1.0 - t)
  {
  }

  lemma BendByCA(p: real, q: real, r: real)
    requires 0.0 < p < q < r <= 3.0 && 2.0 < q
    ensures Bend(p, q, r) >= 0.0 && (!OneSide(p, q, r) ==> Bend(p, q, r) > 0.0)
  {
    hide Turn, Mul;
    var y, t := 3.0 - q, 3.0 - r;
    TurnSameSide(0.0, 0.0, y, t);
    if p <= 1.0 {
      TurnABtoCA(p, y);
      TurnABtoCA(p, t);
      MulPositive(p, y - t);
      MulLess(y, t, p);
    } else if p <= 2.0 {
      TurnBCtoCA(p - 1.0, y);
      TurnBCtoCA(p - 1.0, t);
      MulPositive(2.0 - p, y - t);
      MulLess(y, t, 2.0 - p);
    } else {
      TurnSameSide(0.0, 0.0, 3.0 - p, y);
      TurnSameSide(0.0, 0.0, 3.0 - p, t);
    }
  }

  lemma Bends(p: real, q: real, r: real)
    requires 0.0 < p < q < r <= 3.0
    ensures Bend(p, q, r) >= 0.0 && (!OneSide(p, q, r) ==> Bend(p, q, r) > 0.0)
  {
    hide Bend, OneSide;
    if q <= 1.0 { BendFromAB(p, q, r); } else if q <= 2.0 { BendByBC(p, q, r); } else { BendByCA(p, q, r); }
  }

  /** Going round turns no less than going straight. */
  lemma {:induction false} PathBends(pen: real, ps: seq<real>)
    requires RisesIn([pen] + ps, 0.0, 3.0) && ps != []
    ensures TurnPath(pen, ps) >= Turn(pen, ps[|ps| - 1])
    decreases |ps|
  {
    hide Turn;
    var all := [pen] + ps;
    var tail := ps[1..];
    if tail == [] {
      assert TurnPath(ps[0], tail) == 0.0;
    } else {
      assert forall i :: 0 <= i < |ps| ==> ([ps[0]] + tail)[i] == all[i + 1];
      PathBends(ps[0], tail);
      assert all[0] < all[1] < all[|ps|];
      Bends(pen, ps[0], ps[|ps| - 1]);
    }
  }

  lemma TurnFlips(p: real, q: real)
    ensures Turn(p, q) == -Turn(q, p)
  {
  }

  lemma LoopBends(ps: seq<real>, i: nat)
    requires RisesIn(ps, 0.0, 3.0) && 0 < i < |ps| - 1
    ensures TurnLoop(ps) >= Bend(ps[0], ps[i], ps[|ps| - 1])
  {
    hide Turn, RisesIn;
    var n := |ps| - 1;
    var near, far := ps[1..i + 1], ps[i + 1..];
    assert ps[1..] == near + far && near[|near| - 1] == ps[i] && far[|far| - 1] == ps[n];
    assert TurnLoop(ps) == Turn(ps[n], ps[0]) + TurnPath(ps[0], near + far);
    hide TurnPath, TurnLoop;
    TurnPathConcat(ps[0], near, far);
    SliceRises(ps, 0, i + 1);
    SliceRises(ps, i, |ps|);
    assert ps[i + 1..|ps|] == far && ps[0 + 1..i + 1] == near;
    PathBends(ps[0], near);
    PathBends(ps[i], far);
    TurnFlips(ps[n], ps[0]);
  }

  lemma SliceRises(ps: seq<real>, i: nat, j: nat)
    requires RisesIn(ps, 0.0, 3.0) && i < j <= |ps|
    ensures RisesIn([ps[i]] + ps[i + 1..j], 0.0, 3.0)
  {
    assert [ps[i]] + ps[i + 1..j] == ps[i..j];
  }

  // ---- the ring has area ----

  lemma SpreadTurns(ps: seq<real>, p: real, q: real, r: real)
    requires RisesIn(ps, 0.0, 3.0) && |ps| >= 3
    requires p in ps && 1.0 < p < 3.0 && q in ps && q < 2.0 && r in ps && (r < 1.0 || 2.0 < r)
    ensures TurnLoop(ps) > 0.0
  {
    var n := |ps| - 1;
    assert ps[0] < 2.0 && ps[n] > 1.0;
    var k :| 0 <= k < |ps| && ps[k] == p;
    var i := if 0 < k < n then k else 1;
    assert ps[n] == 3.0 ==> k < n && (k == 0 ==> ps[1] > 1.0);
    assert ps[0] < 1.0 || ps[n] > 2.0;
    assert ps[0] < ps[i] < ps[n];
    hide Turn, TurnLoop;
    assert !OneSide(ps[0], ps[i], ps[n]);
    Bends(ps[0], ps[i], ps[n]);
    LoopBends(ps, i);
  }

  lemma FilledSpreads(a: real, b: real, c: real, s: Span) returns (p: real, q: real, r: real)
    requires s.lo < s.hi && Filled(a, b, c, s)
    ensures var core := Core(a, b, c, s); p in core && 1.0 < p < 3.0 && q in core && q < 2.0 && r in core && (r < 1.0 || 2.0 < r)
  {
    hide Ratio;
    p := OffAB(a, b, c, s);
    q := OffCA(a, b, c, s);
    r := OffBC(a, b, c, s);
  }

  lemma Inside(i: real, u: real, w: real, b: real, s: Span) returns (p: real)
    requires s.lo < s.hi && (b == s.lo || b == s.hi) && Splits(u, w, b)
    ensures p in Leg(i, u, w, s) && i < p < i + 1.0
  {
    RatioFacts(u, w, b);
    hide Ratio;
    p := i + Ratio(u, w, b);
  }

  lemma OffAB(a: real, b: real, c: real, s: Span) returns (p: real)
    requires s.lo < s.hi && Filled(a, b, c, s)
    ensures p in Core(a, b, c, s) && 1.0 < p < 3.0
  {
    if Central(c, s) {
      p := 2.0;
      assert p in Leg(1.0, b, c, s);
    } else if Splits(b, c, Face(c, s)) {
      p := Inside(1.0, b, c, Face(c, s), s);
    } else {
      p := Inside(2.0, c, a, Face(c, s), s);
    }
    hide Leg;
  }

  lemma OffCA(a: real, b: real, c: real, s: Span) returns (p: real)
    requires s.lo < s.hi && Filled(a, b, c, s)
    ensures p in Core(a, b, c, s) && p < 2.0
  {
    if Central(b, s) {
      p := 1.0;
      assert p in Leg(0.0, a, b, s);
    } else if Splits(a, b, Face(b, s)) {
      p := Inside(0.0, a, b, Face(b, s), s);
    } else {
      p := Inside(1.0, b, c, Face(b, s), s);
    }
    hide Leg;
  }

  lemma OffBC(a: real, b: real, c: real, s: Span) returns (p: real)
    requires s.lo < s.hi && Filled(a, b, c, s)
    ensures p in Core(a, b, c, s) && (p < 1.0 || 2.0 < p)
  {
    if Central(a, s) {
      p := 3.0;
      assert p in Leg(2.0, c, a, s);
    } else if Splits(a, b, Face(a, s)) {
      p := Inside(0.0, a, b, Face(a, s), s);
    } else {
      p := Inside(2.0, c, a, Face(a, s), s);
    }
    hide Leg;
  }

  lemma FilledSize(a: real, b: real, c: real, s: Span)
    requires s.lo < s.hi && Filled(a, b, c, s)
    ensures |Core(a, b, c, s)| >= 3
  {
    hide Ratio;
  }

  /** The kept ring has area, on the triangle's own side. */
  lemma KeptHasArea(w: Wedge, s: Span)
    requires w.Proper(s) && w.Kept(s)
    ensures |w.CoreRing(s)| >= 3
    ensures LoopSum(w.CoreRing(s)) > 0.0 <==> Det(w.a, w.b, w.c) > 0.0
    ensures LoopSum(w.CoreRing(s)) < 0.0 <==> Det(w.a, w.b, w.c) < 0.0
  {
    hide Core, TurnLoop, Det, LoopSum, Filled;
    var ps := Core(w.va, w.vb, w.vc, s);
    LoopTurns(w.a, w.b, w.c, ps);
    CoreRises(w.va, w.vb, w.vc, s);
    FilledSize(w.va, w.vb, w.vc, s);
    var p, q, r := FilledSpreads(w.va, w.vb, w.vc, s);
    SpreadTurns(ps, p, q, r);
    SignOfProduct(Det(w.a, w.b, w.c), TurnLoop(ps));
  }

  lemma SignOfProduct(d: real, t: real)
    requires t > 0.0
    ensures (d * t > 0.0 <==> d > 0.0) && (d * t < 0.0 <==> d < 0.0)
  {
  }
}
