/** The ring left of a triangle in a band of values: going round the perimeter, the points
    where a side crosses a bound and the corners that lie in the band or on a bound. */
module ContourBandRing {
  import opened ContourBandShape
  import opened ContourWheel

  /** In the band or on one of its bounds. */
  predicate Central(v: real, s: Span) { s.lo <= v <= s.hi }

  /** The bound that a value beyond the band faces. */
  function Face(v: real, s: Span): real { if v < s.lo then s.lo else s.hi }

  predicate Splits(u: real, w: real, b: real) { u < b < w || w < b < u }

  function Crossing(i: real, u: real, w: real, b: real): seq<real> {
    if Splits(u, w, b) then [i + Ratio(u, w, b)] else []
  }

  /** The inner positions of a side from value u at position i to value w. */
  function Crossings(i: real, u: real, w: real, s: Span): seq<real> {
    Crossing(i, u, w, if u < w then s.lo else s.hi) + Crossing(i, u, w, if u < w then s.hi else s.lo)
  }

  function Stop(i: real, v: real, s: Span): seq<real> { if Central(v, s) then [i] else [] }

  function Leg(i: real, u: real, w: real, s: Span): seq<real> { Crossings(i, u, w, s) + Stop(i + 1.0, w, s) }

  /** The positions of the ring, each point once, ending with the first corner if it has it. */
  function Core(a: real, b: real, c: real, s: Span): seq<real> {
    Leg(0.0, a, b, s) + Leg(1.0, b, c, s) + Leg(2.0, c, a, s)
  }

  // ---- ratios ----

  lemma RatioFacts(u: real, w: real, b: real)
    requires u <= b <= w || w <= b <= u
    requires u != w
    ensures 0.0 <= Ratio(u, w, b) <= 1.0
    ensures Ratio(u, w, b) == 0.0 <==> b == u
    ensures Ratio(u, w, b) == 1.0 <==> b == w
    ensures Ratio(w, u, b) == 1.0 - Ratio(u, w, b)
  {
    hide Ratio;
    var x, d := b - u, w - u;
    RatioTimes(u, w, b);
    RatioTimes(w, u, b);
    var r := Ratio(u, w, b);
    assert (Ratio(w, u, b) - (1.0 - r)) * d == 0.0;
    ZeroProduct(Ratio(w, u, b) - (1.0 - r), d);
    if b == u { ZeroProduct(r, d); }
    if b == w { ZeroProduct(r - 1.0, d); }
    UnitRange(r, d, x);
  }

  lemma RatioTimes(u: real, w: real, b: real)
    requires u != w
    ensures Ratio(u, w, b) * (w - u) == b - u
  {
  }

  lemma UnitRange(r: real, d: real, x: real)
    requires r * d == x && ((0.0 <= x <= d && 0.0 < d) || (d <= x <= 0.0 && d < 0.0))
    ensures 0.0 <= r <= 1.0
  {
  }

  lemma RatioOrder(u: real, w: real, x: real, y: real)
    requires (u < w && x < y) || (w < u && y < x)
    ensures Ratio(u, w, x) < Ratio(u, w, y)
  {
    hide Ratio;
    RatioTimes(u, w, x);
    RatioTimes(u, w, y);
    var r, q, d := Ratio(u, w, x), Ratio(u, w, y), w - u;
    assert (q - r) * d == y - x;
    PositiveQuotient(q - r, d, y - x);
  }

  lemma PositiveQuotient(q: real, d: real, x: real)
    requires q * d == x && ((d > 0.0 && x > 0.0) || (d < 0.0 && x < 0.0))
    ensures q > 0.0
  {
  }

  // ---- positions rise ----

  ghost predicate RisesIn(ps: seq<real>, lo: real, hi: real) {
    && (forall i, j :: 0 <= i < j < |ps| ==> ps[i] < ps[j])
    && forall i :: 0 <= i < |ps| ==> lo < ps[i] <= hi
  }

  lemma RisesConcat(ps: seq<real>, qs: seq<real>, lo: real, mid: real, hi: real)
    requires RisesIn(ps, lo, mid) && RisesIn(qs, mid, hi) && lo <= mid <= hi
    ensures RisesIn(ps + qs, lo, hi)
  {
  }

  lemma LegRises(i: real, u: real, w: real, s: Span)
    requires s.lo < s.hi
    ensures RisesIn(Leg(i, u, w, s), i, i + 1.0)
  {
    hide Ratio;
    var x, y := if u < w then s.lo else s.hi, if u < w then s.hi else s.lo;
    if Splits(u, w, x) { RatioFacts(u, w, x); }
    if Splits(u, w, y) { RatioFacts(u, w, y); }
    if u != w { RatioOrder(u, w, x, y); }
  }

  lemma CoreRises(a: real, b: real, c: real, s: Span)
    requires s.lo < s.hi
    ensures RisesIn(Core(a, b, c, s), 0.0, 3.0)
  {
    hide Leg, RisesIn;
    LegRises(0.0, a, b, s);
    LegRises(1.0, b, c, s);
    LegRises(2.0, c, a, s);
    RisesConcat(Leg(0.0, a, b, s), Leg(1.0, b, c, s), 0.0, 1.0, 2.0);
    RisesConcat(Leg(0.0, a, b, s) + Leg(1.0, b, c, s), Leg(2.0, c, a, s), 0.0, 2.0, 3.0);
  }

  // ---- the two sides at the first corner ----

  /** Some value of the side lies in the band or on a bound. */
  predicate Meets(u: real, w: real, s: Span) { !(u < s.lo && w < s.lo) && !(u > s.hi && w > s.hi) }

  /** Where on the side from u to w the band begins and ends, counting its bounds. */
  function Inner(u: real, w: real, s: Span): real { if Central(u, s) then 0.0 else Ratio(u, w, Face(u, s)) }

  function Outer(u: real, w: real, s: Span): real { if Central(w, s) then 1.0 else Ratio(u, w, Face(w, s)) }

  /** More than a point of the side does. */
  predicate Long(u: real, w: real, s: Span) {
    Meets(u, w, s) && (Central(u, s) || w != Face(u, s)) && (Central(w, s) || u != Face(w, s))
  }

  lemma SideFacts(u: real, w: real, s: Span)
    requires s.lo < s.hi && Meets(u, w, s)
    ensures 0.0 <= Inner(u, w, s) <= Outer(u, w, s) <= 1.0
    ensures Long(u, w, s) <==> Inner(u, w, s) < Outer(u, w, s)
    ensures Central(u, s) <==> Inner(u, w, s) == 0.0
    ensures Central(w, s) <==> Outer(u, w, s) == 1.0
    ensures !Long(u, w, s) && Central(u, s) ==> Outer(u, w, s) == 0.0 && !Central(w, s)
    ensures !Long(u, w, s) && !Central(u, s) ==> Inner(u, w, s) == 1.0 && Central(w, s)
  {
    hide Ratio;
    if !Central(u, s) { RatioFacts(u, w, Face(u, s)); }
    if !Central(w, s) { RatioFacts(u, w, Face(w, s)); }
    if u < s.lo && w > s.hi { RatioOrder(u, w, s.lo, s.hi); }
    if u > s.hi && w < s.lo { RatioOrder(u, w, s.hi, s.lo); }
  }

  /** The side from the first corner, as positions. */
  lemma OutLeg(u: real, w: real, s: Span)
    requires s.lo < s.hi
    ensures Long(u, w, s) ==>
      Leg(0.0, u, w, s) == (if Central(u, s) then [] else [Inner(u, w, s)]) + [Outer(u, w, s)]
    ensures !Long(u, w, s) ==> Leg(0.0, u, w, s) == if Central(w, s) then [1.0] else []
  {
    hide Ratio;
    if Meets(u, w, s) { SideFacts(u, w, s); }
  }

  /** The side back to the first corner. */
  lemma HomeLeg(u: real, w: real, s: Span)
    requires s.lo < s.hi
    ensures Long(u, w, s) ==>
      Leg(2.0, w, u, s) == (if Central(w, s) then [] else [3.0 - Outer(u, w, s)]) + [3.0 - Inner(u, w, s)]
    ensures !Long(u, w, s) ==> Leg(2.0, w, u, s) == if Central(u, s) then [3.0] else []
  {
    hide Ratio;
    if Meets(u, w, s) {
      SideFacts(u, w, s);
      if !Central(u, s) { RatioFacts(u, w, Face(u, s)); }
      if !Central(w, s) { RatioFacts(u, w, Face(w, s)); }
    }
  }

  // ---- where positions lie ----

  /** The position marks an end of the band's part of its side. */
  ghost predicate OnOwnSide(a: real, b: real, c: real, s: Span, p: real) {
    && (p <= 1.0 ==> Meets(a, b, s) && (p == Inner(a, b, s) || p == Outer(a, b, s)))
    && (2.0 <= p < 3.0 ==> Meets(a, c, s) && (3.0 - p == Inner(a, c, s) || 3.0 - p == Outer(a, c, s)))
    && (p == 3.0 ==> Central(a, s))
  }

  lemma CoreSides(a: real, b: real, c: real, s: Span, p: real)
    requires s.lo < s.hi && p in Core(a, b, c, s)
    ensures OnOwnSide(a, b, c, s, p)
  {
    hide Leg, OnOwnSide;
    var x, y, z := Leg(0.0, a, b, s), Leg(1.0, b, c, s), Leg(2.0, c, a, s);
    if p in x { OnOut(a, b, c, s, p); } else if p in y { OnMiddle(a, b, c, s, p); } else { OnHome(a, b, c, s, p); }
  }

  lemma OnOut(a: real, b: real, c: real, s: Span, p: real)
    requires s.lo < s.hi && p in Leg(0.0, a, b, s)
    ensures OnOwnSide(a, b, c, s, p)
  {
    hide Leg, Inner, Outer, RisesIn, Long, Meets, Central;
    assert 0.0 < p <= 1.0 by {
      LegRises(0.0, a, b, s);
      InRange(Leg(0.0, a, b, s), 0.0, 1.0, p);
    }
    OutLeg(a, b, s);
    CornerSide(a, b, s);
  }

  lemma OnMiddle(a: real, b: real, c: real, s: Span, p: real)
    requires s.lo < s.hi && p in Leg(1.0, b, c, s)
    ensures OnOwnSide(a, b, c, s, p)
  {
    hide Leg, Inner, Outer, RisesIn, Long, Meets, Central;
    assert 1.0 < p <= 2.0 by {
      LegRises(1.0, b, c, s);
      InRange(Leg(1.0, b, c, s), 1.0, 2.0, p);
    }
    CornerSide(a, c, s);
    MiddleEnd(b, c, s);
  }

  lemma OnHome(a: real, b: real, c: real, s: Span, p: real)
    requires s.lo < s.hi && p in Leg(2.0, c, a, s)
    ensures OnOwnSide(a, b, c, s, p)
  {
    hide Leg, Inner, Outer, RisesIn, Long, Meets, Central;
    assert 2.0 < p <= 3.0 by {
      LegRises(2.0, c, a, s);
      InRange(Leg(2.0, c, a, s), 2.0, 3.0, p);
    }
    HomeLeg(a, c, s);
    CornerSide(a, c, s);
    if Long(a, c, s) { SideFacts(a, c, s); }
  }

  lemma InRange(ps: seq<real>, lo: real, hi: real, p: real)
    requires RisesIn(ps, lo, hi)
    ensures p in ps ==> lo < p <= hi
  {
  }

  lemma MiddleEnd(b: real, c: real, s: Span)
    requires s.lo < s.hi
    ensures 2.0 in Leg(1.0, b, c, s) ==> Central(c, s)
  {
    hide Ratio;
    var x, y := if b < c then s.lo else s.hi, if b < c then s.hi else s.lo;
    if Splits(b, c, x) { RatioFacts(b, c, x); }
    if Splits(b, c, y) { RatioFacts(b, c, y); }
  }

  lemma CornerSide(a: real, b: real, s: Span)
    requires s.lo < s.hi
    ensures Central(b, s) ==> Meets(a, b, s) && Outer(a, b, s) == 1.0
    ensures Central(a, s) ==> Meets(a, b, s) && Inner(a, b, s) == 0.0
    ensures Long(a, b, s) ==> Meets(a, b, s)
  {
  }

  /** Consecutive around the ring: from position p to position q. */
  ghost predicate Follows(ps: seq<real>, p: real, q: real) {
    exists i :: 0 <= i < |ps| && ps[i] == p && ps[if i + 1 == |ps| then 0 else i + 1] == q
  }

  lemma FollowsAt(ps: seq<real>, i: nat, p: real, q: real)
    requires i < |ps| && ps[i] == p && ps[if i + 1 == |ps| then 0 else i + 1] == q
    ensures Follows(ps, p, q)
  {
  }

  /** The band's part of a long side is an edge of the ring. */
  lemma OutFollows(a: real, b: real, c: real, s: Span)
    requires s.lo < s.hi && Long(a, b, s)
    ensures Follows(Core(a, b, c, s), if Central(a, s) then 3.0 else Inner(a, b, s), Outer(a, b, s))
  {
    OutLeg(a, b, s);
    HomeLeg(a, c, s);
    CornerSide(a, c, s);
    hide Inner, Outer, Leg, Long;
    var ps := Core(a, b, c, s);
    if Central(a, s) {
      assert ps[|ps| - 1] == 3.0 && ps[0] == Outer(a, b, s);
      FollowsAt(ps, |ps| - 1, 3.0, Outer(a, b, s));
    } else {
      FollowsAt(ps, 0, Inner(a, b, s), Outer(a, b, s));
    }
  }

  lemma HomeFollows(a: real, b: real, c: real, s: Span)
    requires s.lo < s.hi && Long(a, c, s)
    ensures Follows(Core(a, b, c, s), 3.0 - Outer(a, c, s), if Central(a, s) then 3.0 else 3.0 - Inner(a, c, s))
  {
    HomeLeg(a, c, s);
    CornerSide(a, c, s);
    LegEnds(1.0, b, c, s);
    hide Inner, Outer, Leg, Long;
    var ps := Core(a, b, c, s);
    var n := |ps| - 1;
    var x, y, z := Leg(0.0, a, b, s), Leg(1.0, b, c, s), Leg(2.0, c, a, s);
    assert ps[n] == z[|z| - 1];
    if Central(c, s) {
      assert |z| == 1 && ps[n - 1] == y[|y| - 1];
    } else {
      assert |z| == 2 && ps[n - 1] == z[0];
    }
    FollowsAt(ps, n - 1, 3.0 - Outer(a, c, s), ps[n]);
  }

  lemma LegEnds(i: real, u: real, w: real, s: Span)
    ensures Central(w, s) ==> Leg(i, u, w, s) != [] && Leg(i, u, w, s)[|Leg(i, u, w, s)| - 1] == i + 1.0
  {
    hide Crossings;
  }
}
