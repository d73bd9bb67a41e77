/** A cell whose centre lies beyond the band: which triangles leave fragments, where these
    touch, and how their rings are listed. */
module ContourCellTouch {
  import opened ContourGeometry
  import opened ContourLevels
  import opened ContourFill
  import opened ContourWheel
  import opened ContourBandShape
  import opened ContourBandRing
  import opened ContourBandKept
  import opened ContourFan
  import opened ContourTouch
  import opened ContourCellFan

  /** On the band's side of the bound that a value beyond the band faces. */
  predicate Sided(a: real, v: real, s: Span) { if a < s.lo then v > s.lo else v < s.hi }

  lemma BeyondKept(a: real, b: real, c: real, s: Span)
    requires s.lo < s.hi && !Central(a, s)
    ensures Filled(a, b, c, s) <==> Sided(a, b, s) || Sided(a, c, s)
    ensures Long(a, b, s) <==> Sided(a, b, s)
    ensures b == Face(a, s) ==> !Sided(a, b, s) && Central(b, s)
  {
  }

  predicate SideAt(s: CellSample, sp: Span, j: nat)
    requires s.Valid() && j < 4
  {
    Sided(s.center.value, s.corners[j].value, sp)
  }

  lemma BeyondCell(s: CellSample, sp: Span, j: nat)
    requires s.Valid() && sp.lo < sp.hi && !Central(s.center.value, sp) && j < 4
    ensures KeptAt(s, sp, j) <==> SideAt(s, sp, j) || SideAt(s, sp, After(j))
    ensures OpenAt(s, sp, j) <==> SideAt(s, sp, j)
    ensures TouchAt(s, sp, j) <==>
      s.corners[j].value == Face(s.center.value, sp) && SideAt(s, sp, Before(j)) && SideAt(s, sp, After(j))
  {
    var a, v, w, x := s.center.value, s.corners[j].value, s.corners[After(j)].value, s.corners[Before(j)].value;
    BeyondKept(a, v, w, sp);
    BeyondKept(a, x, v, sp);
    hide Filled, Long, Sided, Central, Face;
    assert After(Before(j)) == j;
  }

  // ---- the rings as listed ----

  lemma FirstListed(w: Wedge, s: Span)
    requires s.lo < s.hi && !Central(w.va, s)
    ensures var core := Core(w.va, w.vb, w.vc, s);
      && (Long(w.va, w.vb, s) ==> |core| >= 2 && core[0] == Inner(w.va, w.vb, s) && core[1] == Outer(w.va, w.vb, s))
      && (w.vb == Face(w.va, s) ==> |core| >= 1 && core[0] == 1.0)
  {
    OutLeg(w.va, w.vb, s);
    assert w.vb == Face(w.va, s) ==> !Long(w.va, w.vb, s) && Central(w.vb, s);
    hide Leg, Inner, Outer, Long;
  }

  lemma LastListed(w: Wedge, s: Span)
    requires s.lo < s.hi && !Central(w.va, s)
    ensures var core := Core(w.va, w.vb, w.vc, s);
      && var n := |core|;
      && (Long(w.va, w.vc, s) ==>
           n >= 2 && core[n - 1] == 3.0 - Inner(w.va, w.vc, s) && core[n - 2] == 3.0 - Outer(w.va, w.vc, s))
      && (Long(w.va, w.vc, s) && Long(w.va, w.vb, s) ==> n >= 4)
      && (w.vc == Face(w.va, s) ==> n >= 1 && core[n - 1] == 2.0)
  {
    OutLeg(w.va, w.vb, s);
    HomeLeg(w.va, w.vc, s);
    LegEnds(1.0, w.vb, w.vc, s);
    CornerSide(w.va, w.vc, s);
    assert w.vc == Face(w.va, s) ==> !Long(w.va, w.vc, s) && Central(w.vc, s);
    hide Leg, Inner, Outer, Long;
    var core, x, y, z := Core(w.va, w.vb, w.vc, s), Leg(0.0, w.va, w.vb, s), Leg(1.0, w.vb, w.vc, s), Leg(2.0, w.vc, w.va, s);
    assert z != [] ==> core[|core| - 1] == z[|z| - 1];
    assert |z| == 1 && y != [] ==> core[|core| - 2] == y[|y| - 1];
    assert |z| == 2 ==> core[|core| - 2] == z[0];
    assert z == [] && y != [] ==> core[|core| - 1] == y[|y| - 1];
  }

  /** A kept ring is shaped by the spokes beside it. */
  lemma RingShaped(s: CellSample, bin: LevelBin, sp: Span, k: nat)
    requires s.Valid() && Regular(s, bin, sp) && k < 4 && !Central(s.center.value, sp) && KeptAt(s, sp, k)
    ensures Shaped(Rings(s, sp)[k], SpokeAt(s, sp, k), SpokeAt(s, sp, After(k)))
  {
    var w, l := WedgeAt(s, k), After(k);
    BeyondCell(s, sp, k);
    BeyondCell(s, sp, l);
    BeyondKept(w.va, w.vb, w.vc, sp);
    BeyondKept(w.va, w.vc, w.vb, sp);
    hide KeptAt, Regular, Core, Long, Inner, Outer, Lerp, Simple, Sided, Face, Filled;
    RingSimple(s, bin, sp, k);
    BeyondRing(s, bin, sp, k);
    FirstListed(w, sp);
    LastListed(w, sp);
    SpokePlaces(w, sp);
    ShapedAt(Rings(s, sp)[k], w, sp, SpokeAt(s, sp, k), SpokeAt(s, sp, l));
  }

  lemma BeyondRing(s: CellSample, bin: LevelBin, sp: Span, k: nat)
    requires s.Valid() && Regular(s, bin, sp) && k < 4 && !Central(s.center.value, sp) && KeptAt(s, sp, k)
    ensures Rings(s, sp)[k] == WedgeAt(s, k).CoreRing(sp) && |Rings(s, sp)[k]| >= 3
  {
    hide SanitizeRing, Core, Det, Filled, Positions, Perimeters, Regular, Turned;
    TriangleWedge(s, bin, sp, k);
    SanitizedIsCore(WedgeAt(s, k), sp);
    FragmentIsRing(s, bin, sp, k);
  }

  /** Where the ends of the two sides lie. */
  lemma SpokePlaces(w: Wedge, s: Span)
    requires s.lo < s.hi
    ensures Long(w.va, w.vb, s) ==>
      && Perimeter(w.a, w.b, w.c, Inner(w.va, w.vb, s)) == Lerp(w.a, w.b, Inner(w.va, w.vb, s))
      && Perimeter(w.a, w.b, w.c, Outer(w.va, w.vb, s)) == Lerp(w.a, w.b, Outer(w.va, w.vb, s))
    ensures Long(w.va, w.vc, s) ==>
      && Perimeter(w.a, w.b, w.c, 3.0 - Inner(w.va, w.vc, s)) == Lerp(w.a, w.c, Inner(w.va, w.vc, s))
      && Perimeter(w.a, w.b, w.c, 3.0 - Outer(w.va, w.vc, s)) == Lerp(w.a, w.c, Outer(w.va, w.vc, s))
    ensures Perimeter(w.a, w.b, w.c, 1.0) == Lerp(w.a, w.b, 1.0) && Perimeter(w.a, w.b, w.c, 2.0) == Lerp(w.a, w.c, 1.0)
  {
    hide Perimeter, Lerp, Inner, Outer;
    if Long(w.va, w.vb, s) {
      SideFacts(w.va, w.vb, s);
      SpokePoints(w, Inner(w.va, w.vb, s));
      SpokePoints(w, Outer(w.va, w.vb, s));
    }
    if Long(w.va, w.vc, s) {
      SideFacts(w.va, w.vc, s);
      SpokePoints(w, Inner(w.va, w.vc, s));
      SpokePoints(w, Outer(w.va, w.vc, s));
    }
    SpokePoints(w, 1.0);
  }

  lemma ShapedAt(ring: seq<Point2>, w: Wedge, s: Span, left: Spoke, right: Spoke)
    requires Simple(ring) && |ring| >= 3 && ring == w.CoreRing(s) && (left.open || right.open)
    requires left.open ==> Long(w.va, w.vb, s)
    requires right.open ==> Long(w.va, w.vc, s)
    requires left.touching ==> w.vb == Face(w.va, s) && Central(w.vb, s)
    requires right.touching ==> w.vc == Face(w.va, s) && Central(w.vc, s)
    requires left.inner == Lerp(w.a, w.b, Inner(w.va, w.vb, s)) && left.outer == Lerp(w.a, w.b, Outer(w.va, w.vb, s))
    requires right.inner == Lerp(w.a, w.c, Inner(w.va, w.vc, s)) && right.outer == Lerp(w.a, w.c, Outer(w.va, w.vc, s))
    requires s.lo < s.hi && !Central(w.va, s)
    ensures Shaped(ring, left, right)
  {
    hide Perimeter, Lerp, Inner, Core, Long, Simple, Face;
    FirstListed(w, s);
    LastListed(w, s);
    SpokePlaces(w, s);
    CornerSide(w.va, w.vb, s);
    CornerSide(w.va, w.vc, s);
  }
}
