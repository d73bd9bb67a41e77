/** The kept rings of a cell's four triangles form a fan around its centre, for any five
    values: they share the open parts of the spokes, and otherwise touch at corners. */
module ContourCellFan {
  import opened Basics
  import opened ContourGeometry
  import opened ContourLevels
  import opened ContourBands
  import opened ContourFill
  import opened ContourTrace
  import opened ContourMergeArea
  import opened ContourWheel
  import opened ContourBandShape
  import opened ContourBandRing
  import opened ContourBandKept
  import opened ContourFan
  import opened ContourCellMerge

  // ---- rings that start elsewhere ----

  lemma TurnedHas(ring: seq<Point2>, core: seq<Point2>, e: Edge)
    requires Turned(ring, core) && Has(core, e)
    ensures Has(ring, e)
  {
    hide Has;
    if ring != core {
      var i := EdgeEnds(core, e);
      var n := |core|;
      var j := if i + 1 == n then 0 else i + 1;
      assert ring[j] == core[i] && ring[NextIndex(j, n)] == core[NextIndex(i, n)];
      EdgeThere(ring, j);
    }
  }

  lemma TurnedSimple(ring: seq<Point2>, core: seq<Point2>)
    requires Turned(ring, core) && Simple(core)
    ensures Simple(ring)
  {
    if ring != core {
      var n := |core| - 1;
      forall i, j | 0 <= i < j < |ring| ensures ring[i] != ring[j] {
        assert ring[j] == core[j - 1];
        assert ring[i] == if i == 0 then core[n] else core[i - 1];
      }
    }
  }

  lemma FollowsHas(w: Wedge, ps: seq<real>, p: real, q: real)
    requires Follows(ps, p, q)
    ensures Has(Perimeters(w.a, w.b, w.c, ps), Edge(Perimeter(w.a, w.b, w.c, p), Perimeter(w.a, w.b, w.c, q)))
  {
    hide Perimeter, Has;
    var i :| 0 <= i < |ps| && ps[i] == p && ps[if i + 1 == |ps| then 0 else i + 1] == q;
    EdgeThere(Perimeters(w.a, w.b, w.c, ps), i);
  }

  // ---- one wedge ----

  ghost function KeptRing(w: Wedge, s: Span): seq<Point2> {
    if w.Kept(s) then SanitizeRing(w.Raw(s)) else []
  }

  lemma SpokePoints(w: Wedge, t: real)
    requires 0.0 <= t <= 1.0
    ensures Perimeter(w.a, w.b, w.c, t) == Lerp(w.a, w.b, t)
    ensures Perimeter(w.a, w.b, w.c, 3.0 - t) == Lerp(w.a, w.c, t)
  {
    hide Spot, Lerp;
    SideSpots(w.a, w.b, w.c, t);
    SideSpots(w.a, w.c, w.b, t);
    SpotSwaps(w.a, w.b, w.c, t);
    assert t < 1.0 ==> Along(3.0 - t) == 0.0 && Across(3.0 - t) == t;
  }

  lemma SpotSwaps(a: Point2, b: Point2, c: Point2, t: real)
    ensures Spot(a, c, b, t, 0.0) == Spot(a, b, c, 0.0, t)
  {
  }

  /** The band's part of a spoke, outward. */
  function SpokeEdge(hub: Point2, va: real, p: Point2, v: real, s: Span): Edge {
    Edge(Lerp(hub, p, Inner(va, v, s)), Lerp(hub, p, Outer(va, v, s)))
  }

  /** What the fan needs to know of one kept ring. */
  lemma RingFacts(w: Wedge, s: Span)
    requires w.Proper(s) && w.Kept(s) && |w.CoreRing(s)| >= 3
    requires Turned(KeptRing(w, s), w.CoreRing(s))
    ensures Simple(KeptRing(w, s))
    ensures Long(w.va, w.vb, s) ==> Has(KeptRing(w, s), SpokeEdge(w.a, w.va, w.b, w.vb, s))
    ensures Long(w.va, w.vc, s) ==> Has(KeptRing(w, s), Rev(SpokeEdge(w.a, w.va, w.c, w.vc, s)))
  {
    hide KeptRing, Core, Perimeter, Lerp, Long, Det, Has, Inner, Outer, Turned;
    var ps, core, ring := Core(w.va, w.vb, w.vc, s), w.CoreRing(s), KeptRing(w, s);
    CoreRises(w.va, w.vb, w.vc, s);
    PerimetersDiffer(w.a, w.b, w.c, ps);
    TurnedSimple(ring, core);
    if Long(w.va, w.vb, s) { FirstSpoke(w, s); }
    if Long(w.va, w.vc, s) { SecondSpoke(w, s); }
  }

  lemma FirstSpoke(w: Wedge, s: Span)
    requires w.Proper(s) && Long(w.va, w.vb, s) && Turned(KeptRing(w, s), w.CoreRing(s))
    ensures Has(KeptRing(w, s), SpokeEdge(w.a, w.va, w.b, w.vb, s))
  {
    hide KeptRing, Core, Perimeter, Lerp, Det, Has, Inner, Outer, Turned;
    var x, y := Inner(w.va, w.vb, s), Outer(w.va, w.vb, s);
    SideFacts(w.va, w.vb, s);
    OutFollows(w.va, w.vb, w.vc, s);
    SpokePoints(w, x);
    SpokePoints(w, y);
    HubPerimeter(w.a, w.b, w.c);
    LerpEnd(w.a, w.b);
    var from := if Central(w.va, s) then 3.0 else x;
    FollowsHas(w, Core(w.va, w.vb, w.vc, s), from, y);
    TurnedHas(KeptRing(w, s), w.CoreRing(s), Edge(Perimeter(w.a, w.b, w.c, from), Perimeter(w.a, w.b, w.c, y)));
  }

  lemma SecondSpoke(w: Wedge, s: Span)
    requires w.Proper(s) && Long(w.va, w.vc, s) && Turned(KeptRing(w, s), w.CoreRing(s))
    ensures Has(KeptRing(w, s), Rev(SpokeEdge(w.a, w.va, w.c, w.vc, s)))
  {
    hide KeptRing, Core, Perimeter, Lerp, Det, Has, Inner, Outer, Turned;
    var x, y := Inner(w.va, w.vc, s), Outer(w.va, w.vc, s);
    SideFacts(w.va, w.vc, s);
    HomeFollows(w.va, w.vb, w.vc, s);
    SpokePoints(w, x);
    SpokePoints(w, y);
    HubPerimeter(w.a, w.b, w.c);
    LerpEnd(w.a, w.c);
    var to := if Central(w.va, s) then 3.0 else 3.0 - x;
    FollowsHas(w, Core(w.va, w.vb, w.vc, s), 3.0 - y, to);
    TurnedHas(KeptRing(w, s), w.CoreRing(s), Edge(Perimeter(w.a, w.b, w.c, 3.0 - y), Perimeter(w.a, w.b, w.c, to)));
  }

  /** Every vertex of the ring has a position. */
  lemma VertexPosition(w: Wedge, s: Span, v: Point2) returns (p: real)
    requires w.Proper(s) && v in KeptRing(w, s) && Turned(KeptRing(w, s), w.CoreRing(s))
    ensures 0.0 < p <= 3.0 && v == Perimeter(w.a, w.b, w.c, p) && OnOwnSide(w.va, w.vb, w.vc, s, p)
  {
    hide KeptRing, Core, Perimeter, Det, OnOwnSide, Turned;
    var ps := Core(w.va, w.vb, w.vc, s);
    TurnedLoop(KeptRing(w, s), w.CoreRing(s));
    var i :| 0 <= i < |ps| && w.CoreRing(s)[i] == v;
    p := ps[i];
    CoreRises(w.va, w.vb, w.vc, s);
    CoreSides(w.va, w.vb, w.vc, s, p);
  }

  lemma SidesNonnegative(p: real)
    requires 0.0 <= p <= 3.0
    ensures Along(p) >= 0.0 && Across(p) >= 0.0
    ensures p > 0.0 && Along(p) == 0.0 ==> p >= 2.0
    ensures Across(p) == 0.0 ==> p <= 1.0 || p == 3.0
    ensures p > 0.0 && Along(p) == 0.0 && Across(p) == 0.0 ==> p == 3.0
  {
  }

  // ---- the cell ----

  ghost function WedgeAt(s: CellSample, k: nat): Wedge
    requires s.Valid() && k < 4
  {
    var b, c := s.corners[k], s.corners[After(k)];
    Wedge(s.center.point, b.point, c.point, s.center.value, b.value, c.value)
  }

  /** The span stands for the bin, and the centre sees the corners in order. */
  ghost predicate Regular(s: CellSample, bin: LevelBin, sp: Span) {
    && s.Valid() && sp.lo < sp.hi && Around(s.center.point, s.Outline())
    && Fits(sp, bin, s.center.value)
    && forall k :: 0 <= k < 4 ==> Fits(sp, bin, s.corners[k].value)
  }

  ghost function Rings(s: CellSample, sp: Span): seq<seq<Point2>>
    requires s.Valid()
  {
    [KeptRing(WedgeAt(s, 0), sp), KeptRing(WedgeAt(s, 1), sp), KeptRing(WedgeAt(s, 2), sp), KeptRing(WedgeAt(s, 3), sp)]
  }

  ghost predicate KeptAt(s: CellSample, sp: Span, k: nat)
    requires s.Valid() && k < 4
  {
    WedgeAt(s, k).Kept(sp)
  }

  /** More than a point of spoke j lies in the band, with fragments on both sides. */
  ghost predicate OpenAt(s: CellSample, sp: Span, j: nat)
    requires s.Valid() && j < 4
  {
    Long(s.center.value, s.corners[j].value, sp) && KeptAt(s, sp, Before(j)) && KeptAt(s, sp, j)
  }

  /** Corner j faces the centre across a bound, with fragments on both sides. */
  ghost predicate TouchAt(s: CellSample, sp: Span, j: nat)
    requires s.Valid() && j < 4
  {
    && !Central(s.center.value, sp) && s.corners[j].value == Face(s.center.value, sp)
    && KeptAt(s, sp, Before(j)) && KeptAt(s, sp, j)
  }

  ghost function SpokeAt(s: CellSample, sp: Span, j: nat): Spoke
    requires s.Valid() && j < 4
  {
    var e := SpokeEdge(s.center.point, s.center.value, s.corners[j].point, s.corners[j].value, sp);
    Spoke(OpenAt(s, sp, j), TouchAt(s, sp, j), e.a, e.b)
  }

  ghost function Spokes(s: CellSample, sp: Span): seq<Spoke>
    requires s.Valid()
  {
    [SpokeAt(s, sp, 0), SpokeAt(s, sp, 1), SpokeAt(s, sp, 2), SpokeAt(s, sp, 3)]
  }

  lemma TriangleWedge(s: CellSample, bin: LevelBin, sp: Span, k: nat)
    requires s.Valid() && Regular(s, bin, sp) && k < 4
    ensures WedgeOf(s.Triangle(k)) == WedgeAt(s, k) && AllFit(sp, bin, s.Triangle(k)) && WedgeAt(s, k).Proper(sp)
  {
    hide Det, Fits;
    assert (k + 1) % 4 == After(k);
    assert s.Outline()[k] == s.corners[k].point && s.Outline()[After(k)] == s.corners[After(k)].point;
  }

  /** Each triangle's fragment is its ring. */
  lemma FragmentIsRing(s: CellSample, bin: LevelBin, sp: Span, k: nat)
    requires s.Valid() && Regular(s, bin, sp) && k < 4
    ensures var ring := Rings(s, sp)[k];
      && ClipTriangleToBin(s.Triangle(k), bin) == (if ring == [] then None else Some(ring))
      && (ring != [] ==> KeptAt(s, sp, k) && Turned(ring, WedgeAt(s, k).CoreRing(sp)) && |WedgeAt(s, k).CoreRing(sp)| >= 3)
      && (ring == [] ==> !KeptAt(s, sp, k))
  {
    hide ClipTriangleToBin, SanitizeRing, Regular, Core, Det, Filled, Positions, Turned, Perimeters;
    TriangleWedge(s, bin, sp, k);
    var w := WedgeAt(s, k);
    assert Rings(s, sp)[k] == KeptRing(w, sp);
    if w.Kept(sp) {
      KeptFragment(s.Triangle(k), bin, sp);
      TurnedLoop(KeptRing(w, sp), w.CoreRing(sp));
    } else {
      DroppedFragment(s.Triangle(k), bin, sp);
    }
  }

  lemma RingSimple(s: CellSample, bin: LevelBin, sp: Span, k: nat)
    requires s.Valid() && Regular(s, bin, sp) && k < 4
    ensures Rings(s, sp)[k] == [] || Simple(Rings(s, sp)[k])
  {
    hide SanitizeRing, Regular, Core, Det, Filled, Positions, Turned, Perimeters, Simple;
    FragmentIsRing(s, bin, sp, k);
    TriangleWedge(s, bin, sp, k);
    if Rings(s, sp)[k] != [] { RingFacts(WedgeAt(s, k), sp); }
  }

  /** An open spoke's edge is in both rings beside it. */
  lemma SpokeShared(s: CellSample, bin: LevelBin, sp: Span, k: nat)
    requires s.Valid() && Regular(s, bin, sp) && k < 4 && Spokes(s, sp)[After(k)].open
    ensures SharesSpoke(Rings(s, sp)[k], Rings(s, sp)[After(k)], Spokes(s, sp)[After(k)])
  {
    hide SanitizeRing, Regular, Core, Det, Positions, Turned, Perimeters, Simple, Lerp, Has, Inner, Outer, Filled, Long;
    var l := After(k);
    FragmentIsRing(s, bin, sp, k);
    FragmentIsRing(s, bin, sp, l);
    TriangleWedge(s, bin, sp, k);
    TriangleWedge(s, bin, sp, l);
    RingFacts(WedgeAt(s, k), sp);
    RingFacts(WedgeAt(s, l), sp);
    var e := Edge(Spokes(s, sp)[l].inner, Spokes(s, sp)[l].outer);
    EndsDiffer(Rings(s, sp)[l], e);
  }

  lemma EndsDiffer(ring: seq<Point2>, e: Edge)
    requires Simple(ring) && Has(ring, e)
    ensures e.a != e.b
  {
    hide Has;
    var i := EdgeEnds(ring, e);
  }

  /** A point t along spoke j that marks an end of its part of the band, other than the
      hub, with both rings kept. */
  lemma SpokeEnd(s: CellSample, bin: LevelBin, sp: Span, j: nat, t: real, v: Point2)
    requires s.Valid() && Regular(s, bin, sp) && j < 4 && KeptAt(s, sp, Before(j)) && KeptAt(s, sp, j)
    requires var u, w := s.center.value, s.corners[j].value; Meets(u, w, sp) && (t == Inner(u, w, sp) || t == Outer(u, w, sp))
    requires v == Lerp(s.center.point, s.corners[j].point, t) && v != s.center.point
    ensures IsEnd(SpokeAt(s, sp, j), v) || TouchesAt(SpokeAt(s, sp, j), v)
  {
    SideFacts(s.center.value, s.corners[j].value, sp);
    LerpEnd(s.center.point, s.corners[j].point);
    hide Lerp, Inner, Outer, KeptAt;
  }

  /** Two rings meet at the ends of the spoke between them, or at the centre. */
  lemma RingsMeet(s: CellSample, bin: LevelBin, sp: Span, k: nat, l: nat, v: Point2)
    requires s.Valid() && Regular(s, bin, sp) && k < 4 && l < 4 && k != l && v != s.center.point
    requires v in Rings(s, sp)[k] && v in Rings(s, sp)[l]
    ensures MeetAt(Spokes(s, sp), k, l, v)
  {
    hide SanitizeRing, Regular, Core, Turned, Perimeters, Around, Spot, OnOwnSide, KeptAt, MeetAt, Along, Across, Rings, Spokes;
    FourRings(s, bin, sp);
    RegularSees(s, bin, sp);
    FragmentIsRing(s, bin, sp, k);
    FragmentIsRing(s, bin, sp, l);
    var w, x := WedgeAt(s, k), WedgeAt(s, l);
    var p := RingPosition(s, bin, sp, k, v);
    var q := RingPosition(s, bin, sp, l, v);
    SidesNonnegative(p);
    SidesNonnegative(q);
    HubPerimeter(w.a, w.b, w.c);
    var m, rim := s.center.point, s.Outline();
    assert rim[k] == w.b && rim[After(k)] == w.c && rim[l] == x.b && rim[After(l)] == x.c;
    SectorsMeet(m, rim, k, l, Along(p), Across(p), Along(q), Across(q));
    if l == After(k) && Along(p) == 0.0 {
      SecondSpokeEnd(s, bin, sp, k, p, v);
    } else {
      assert l == Before(k);
      FirstSpokeEnd(s, bin, sp, k, p, v);
    }
  }

  lemma RegularSees(s: CellSample, bin: LevelBin, sp: Span)
    requires s.Valid() && Regular(s, bin, sp)
    ensures Around(s.center.point, s.Outline())
  {
  }

  lemma SecondSpokeEnd(s: CellSample, bin: LevelBin, sp: Span, k: nat, p: real, v: Point2)
    requires s.Valid() && Regular(s, bin, sp) && k < 4 && v != s.center.point && KeptAt(s, sp, k) && KeptAt(s, sp, After(k))
    requires var w := WedgeAt(s, k);
      0.0 < p <= 3.0 && Along(p) == 0.0 && v == Perimeter(w.a, w.b, w.c, p) && OnOwnSide(w.va, w.vb, w.vc, sp, p)
    ensures MeetAt(Spokes(s, sp), k, After(k), v)
  {
    var w, j := WedgeAt(s, k), After(k);
    HubPerimeter(w.a, w.b, w.c);
    SidesNonnegative(p);
    SpokePoints(w, 3.0 - p);
    hide Perimeter, Lerp, Inner, Outer, Regular, KeptAt, IsEnd, TouchesAt, SpokeAt;
    assert Before(j) == k;
    SpokeEnd(s, bin, sp, j, 3.0 - p, v);
    assert Between(k, j, j) && Spokes(s, sp)[j] == SpokeAt(s, sp, j);
  }

  lemma FirstSpokeEnd(s: CellSample, bin: LevelBin, sp: Span, k: nat, p: real, v: Point2)
    requires s.Valid() && Regular(s, bin, sp) && k < 4 && v != s.center.point && KeptAt(s, sp, k) && KeptAt(s, sp, Before(k))
    requires var w := WedgeAt(s, k);
      0.0 < p <= 3.0 && Across(p) == 0.0 && v == Perimeter(w.a, w.b, w.c, p) && OnOwnSide(w.va, w.vb, w.vc, sp, p)
    ensures MeetAt(Spokes(s, sp), k, Before(k), v)
  {
    var w := WedgeAt(s, k);
    HubPerimeter(w.a, w.b, w.c);
    SidesNonnegative(p);
    SpokePoints(w, p);
    hide Perimeter, Lerp, Inner, Outer, Regular, KeptAt, IsEnd, TouchesAt, SpokeAt;
    SpokeEnd(s, bin, sp, k, p, v);
    assert Between(k, Before(k), k) && Spokes(s, sp)[k] == SpokeAt(s, sp, k);
  }

  lemma RingPosition(s: CellSample, bin: LevelBin, sp: Span, k: nat, v: Point2) returns (p: real)
    requires s.Valid() && Regular(s, bin, sp) && k < 4 && v in Rings(s, sp)[k]
    ensures var w := WedgeAt(s, k);
      0.0 < p <= 3.0 && v == Perimeter(w.a, w.b, w.c, p) && OnOwnSide(w.va, w.vb, w.vc, sp, p)
  {
    hide SanitizeRing, Regular, Core, Det, Positions, Turned, Perimeters, OnOwnSide, Perimeter, Filled;
    FragmentIsRing(s, bin, sp, k);
    TriangleWedge(s, bin, sp, k);
    p := VertexPosition(WedgeAt(s, k), sp, v);
  }

  lemma HubMeans(s: CellSample, bin: LevelBin, sp: Span, k: nat)
    requires s.Valid() && Regular(s, bin, sp) && k < 4 && s.center.point in Rings(s, sp)[k]
    ensures Central(s.center.value, sp)
  {
    hide SanitizeRing, Regular, Core, Positions, Turned, Perimeters, Inner, Outer, Filled, Spot, Det;
    var w := WedgeAt(s, k);
    TriangleWedge(s, bin, sp, k);
    var p := RingPosition(s, bin, sp, k, s.center.point);
    HubPerimeter(w.a, w.b, w.c);
    if p < 3.0 {
      PerimeterInjective(w.a, w.b, w.c, p, 3.0);
      assert false;
    }
  }

  lemma InnerIsHub(s: CellSample, sp: Span, j: nat)
    requires s.Valid() && j < 4 && Central(s.center.value, sp)
    ensures Spokes(s, sp)[j].inner == s.center.point
  {
    LerpEnd(s.center.point, s.corners[j].point);
    hide Lerp, OpenAt, TouchAt;
  }

  /** The rings form a fan. */
  lemma CellIsFan(s: CellSample, bin: LevelBin, sp: Span)
    requires s.Valid() && Regular(s, bin, sp)
    ensures Fan(s.center.point, Rings(s, sp), Spokes(s, sp))
  {
    hide Regular, Simple, SharesSpoke, MeetAt, KeptRing, Central, Rings, Spokes;
    var hub, r, spokes := s.center.point, Rings(s, sp), Spokes(s, sp);
    assert s.Valid() && |r| == 4 && |spokes| == 4 by { FourRings(s, bin, sp); }
    forall k | 0 <= k < 4 ensures r[k] == [] || Simple(r[k]) { RingSimple(s, bin, sp, k); }
    forall k | 0 <= k < 4 && spokes[After(k)].open ensures SharesSpoke(r[k], r[After(k)], spokes[After(k)]) {
      SpokeShared(s, bin, sp, k);
    }
    forall k, l, v | 0 <= k < 4 && 0 <= l < 4 && k != l && v != hub && v in r[k] && v in r[l]
      ensures MeetAt(spokes, k, l, v)
    {
      RingsMeet(s, bin, sp, k, l, v);
    }
    forall k, j | 0 <= k < 4 && 0 <= j < 4 && hub in r[k] && spokes[j].open ensures spokes[j].inner == hub {
      HubMeans(s, bin, sp, k);
      InnerIsHub(s, sp, j);
    }
    forall j | 0 <= j < 4 && spokes[j].touching ensures !spokes[j].open && forall k :: 0 <= k < 4 ==> hub !in r[k] {
      TouchingFacts(s, bin, sp, j);
    }
  }

  lemma TouchingFacts(s: CellSample, bin: LevelBin, sp: Span, j: nat)
    requires s.Valid() && Regular(s, bin, sp) && j < 4 && Spokes(s, sp)[j].touching
    ensures !Spokes(s, sp)[j].open && forall k :: 0 <= k < 4 ==> s.center.point !in Rings(s, sp)[k]
  {
    assert !Central(s.center.value, sp);
    assert !Spokes(s, sp)[j].open by { hide KeptAt, Inner, Outer; }
    hide Regular, Central, KeptRing;
    forall k | 0 <= k < 4 ensures s.center.point !in Rings(s, sp)[k] {
      if s.center.point in Rings(s, sp)[k] { HubMeans(s, bin, sp, k); }
    }
  }

  lemma FourRings(s: CellSample, bin: LevelBin, sp: Span)
    requires s.Valid() && Regular(s, bin, sp)
    ensures s.Valid() && |Rings(s, sp)| == 4 && |Spokes(s, sp)| == 4
  {
  }
}
