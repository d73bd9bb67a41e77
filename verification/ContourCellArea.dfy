/** Merging the fragments of one cell and bin, when the centre sees the corners in order as
    it does in a convex cell: the signed area is kept unless the cell is knotted, and no
    ring is cleared. */
module ContourCellArea {
  import opened ContourGeometry
  import opened ContourLevels
  import opened ContourBands
  import opened ContourFill
  import opened ContourTrace
  import opened ContourMerge
  import opened ContourMergeArea
  import opened ContourMergeForward
  import opened ContourWheel
  import opened ContourBandShape
  import opened ContourBandRing
  import opened ContourBandKept
  import opened ContourBandArea
  import opened ContourFan
  import opened ContourPinch
  import opened ContourPinchFan
  import opened ContourTouch
  import opened ContourTouchHubs
  import opened ContourTouchKnot
  import opened ContourCellMerge
  import opened ContourCellFan
  import opened ContourCellTouch

  lemma {:induction false} CellFragmentsArea(s: CellSample, bin: LevelBin, n: nat)
    requires s.Valid() && n <= 4
    ensures RingsArea(CellFragments(s, bin, n)) == CellBinArea(s, bin, n)
  {
    hide ClipTriangleToBin, Area;
    if n > 0 {
      CellFragmentsArea(s, bin, n - 1);
      var fragment := ClipTriangleToBin(s.Triangle(n - 1), bin);
      if fragment.Some? {
        RingsAreaAppend(CellFragments(s, bin, n - 1), fragment.value);
      } else {
        assert CellFragments(s, bin, n) == CellFragments(s, bin, n - 1);
      }
    }
  }

  // ---- the cell's edges are the fan's ----

  lemma FragmentEdgesAppend(fragments: seq<seq<Point2>>, ring: seq<Point2>)
    requires Simple(ring)
    ensures FragmentEdges(fragments + [ring]) == FragmentEdges(fragments) + EdgesOf(ring)
  {
    hide SanitizeRing, RingEdges;
    SanitizeNothing(ring);
    assert (fragments + [ring])[..|fragments|] == fragments;
  }

  lemma CellEdgesNext(s: CellSample, bin: LevelBin, sp: Span, k: nat)
    requires s.Valid() && Regular(s, bin, sp) && k < 4
    ensures FragmentEdges(CellFragments(s, bin, k + 1)) == FragmentEdges(CellFragments(s, bin, k)) + EdgesOf(Rings(s, sp)[k])
  {
    hide ClipTriangleToBin, Rings, Regular, Turned, Simple, SanitizeRing, RingEdges, FragmentEdges;
    assert |Rings(s, sp)| == 4 by { FourRings(s, bin, sp); }
    FragmentIsRing(s, bin, sp, k);
    RingSimple(s, bin, sp, k);
    var ring := Rings(s, sp)[k];
    if ring != [] {
      FragmentEdgesAppend(CellFragments(s, bin, k), ring);
      assert CellFragments(s, bin, k + 1) == CellFragments(s, bin, k) + [ring];
    } else {
      assert CellFragments(s, bin, k + 1) == CellFragments(s, bin, k);
    }
  }

  lemma CellEdges(s: CellSample, bin: LevelBin, sp: Span)
    requires s.Valid() && Regular(s, bin, sp)
    ensures FragmentEdges(CellFragments(s, bin, 4)) == AllEdges(Rings(s, sp))
  {
    hide Rings, Regular, EdgesOf, FragmentEdges, CellFragments;
    assert |Rings(s, sp)| == 4 by { FourRings(s, bin, sp); }
    CellEdgesNext(s, bin, sp, 0);
    CellEdgesNext(s, bin, sp, 1);
    CellEdgesNext(s, bin, sp, 2);
    CellEdgesNext(s, bin, sp, 3);
    assert FragmentEdges(CellFragments(s, bin, 0)) == [] by { NoFragments(s, bin); }
    assert [] + EdgesOf(Rings(s, sp)[0]) == EdgesOf(Rings(s, sp)[0]);
  }

  lemma NoFragments(s: CellSample, bin: LevelBin)
    requires s.Valid()
    ensures FragmentEdges(CellFragments(s, bin, 0)) == []
  {
  }

  // ---- the centre in the band or on a bound ----

  /** The centre lies on a bound that cuts it off from two opposite corners only. */
  ghost predicate Pinched(s: CellSample, sp: Span)
    requires s.Valid()
  {
    && Central(s.center.value, sp)
    && OpenAt(s, sp, 0) == OpenAt(s, sp, 2) != OpenAt(s, sp, 1) == OpenAt(s, sp, 3)
  }

  lemma NoTwoInARow(a: real, p: real, q: real, r: real, t: real, s: Span)
    requires s.lo < s.hi && Central(a, s) && Filled(a, p, q, s) && Filled(a, q, r, s) && !Long(a, q, s)
    ensures Long(a, r, s) && Filled(a, r, t, s)
  {
  }

  lemma TwoApart(a: real, p: real, q: real, r: real, t: real, s: Span)
    requires s.lo < s.hi && Central(a, s) && Filled(a, p, q, s) && Filled(a, r, t, s)
    requires !(Long(a, q, s) && Filled(a, q, r, s)) && !(Long(a, t, s) && Filled(a, t, p, s))
    ensures Long(a, p, s) && Filled(a, t, p, s) && Long(a, r, s) && Filled(a, q, r, s)
  {
  }

  /** Two kept triangles, neither followed by an open spoke, make a pinched saddle. */
  lemma TwoRuns(s: CellSample, sp: Span, k: nat, l: nat)
    requires s.Valid() && sp.lo < sp.hi && Central(s.center.value, sp) && k < 4 && l < 4 && k != l
    requires KeptAt(s, sp, k) && KeptAt(s, sp, l) && !OpenAt(s, sp, After(k)) && !OpenAt(s, sp, After(l))
    ensures Pinched(s, sp)
  {
    var k1 := After(k);
    var k2 := After(k1);
    var k3 := After(k2);
    var a, p, q, r, t := s.center.value, s.corners[k].value, s.corners[k1].value, s.corners[k2].value, s.corners[k3].value;
    assert After(k3) == k && Before(k1) == k && Before(k2) == k1 && Before(k3) == k2 && Before(k) == k3;
    hide Filled, Long, Central;
    if l == k1 {
      NoTwoInARow(a, p, q, r, t, sp);
    } else if l == k3 {
      NoTwoInARow(a, t, p, q, r, sp);
    } else {
      TwoApart(a, p, q, r, t, sp);
    }
  }

  lemma SpokesOpen(s: CellSample, sp: Span)
    requires s.Valid()
    ensures forall j :: 0 <= j < 4 ==>
      Spokes(s, sp)[j].open == OpenAt(s, sp, j) && Spokes(s, sp)[j].touching == TouchAt(s, sp, j)
  {
    hide OpenAt, TouchAt, Inner, Outer;
  }

  lemma UnpinchedInside(s: CellSample, bin: LevelBin, sp: Span)
    requires s.Valid() && Regular(s, bin, sp) && !Pinched(s, sp)
    ensures |Rings(s, sp)| == |Spokes(s, sp)| == 4 && HubInside(s.center.point, Rings(s, sp), Spokes(s, sp))
  {
    FourRings(s, bin, sp);
    assert sp.lo < sp.hi;
    hide Regular, Rings, Spokes, OpenAt, TouchAt, Pinched, KeptAt;
    SpokesOpen(s, sp);
    var r, spokes, hub := Rings(s, sp), Spokes(s, sp), s.center.point;
    forall k, l | 0 <= k < 4 && 0 <= l < 4 && k != l && hub in r[k] && hub in r[l]
      ensures spokes[After(k)].open || spokes[After(l)].open
    {
      HubMeans(s, bin, sp, k);
      FragmentIsRing(s, bin, sp, k);
      FragmentIsRing(s, bin, sp, l);
      if !spokes[After(k)].open && !spokes[After(l)].open { TwoRuns(s, sp, k, l); }
    }
  }

  /** The ring lists the centre first or last. */
  lemma HubAtEnd(w: Wedge, s: Span)
    requires Central(w.va, s) && Turned(KeptRing(w, s), w.CoreRing(s)) && KeptRing(w, s) != []
    ensures var ring := KeptRing(w, s); ring[0] == w.a || ring[|ring| - 1] == w.a
  {
    hide KeptRing, Perimeter, Leg;
    var ps := Core(w.va, w.vb, w.vc, s);
    LegEnds(2.0, w.vc, w.va, s);
    assert |ps| > 0 && ps[|ps| - 1] == 3.0;
    HubPerimeter(w.a, w.b, w.c);
  }

  lemma CellPinches(s: CellSample, bin: LevelBin, sp: Span)
    requires s.Valid() && Regular(s, bin, sp) && Pinched(s, sp)
    ensures PinchedFan(s.center.point, Rings(s, sp), Spokes(s, sp))
  {
    hide Regular, Rings, Spokes, Fan, OpenAt, TouchAt, Has, MeetAt;
    var hub, r, spokes := s.center.point, Rings(s, sp), Spokes(s, sp);
    CellIsFan(s, bin, sp);
    FourRings(s, bin, sp);
    SpokesOpen(s, sp);
    assert After(0) == 1 && After(1) == 2 && After(2) == 3 && After(3) == 0;
    forall k | 0 <= k < 4 ensures hub in r[k] { HubInRing(s, bin, sp, k); }
    if spokes[0].open { HubEndsFirst(s, bin, sp); }
  }

  lemma HubInRing(s: CellSample, bin: LevelBin, sp: Span, k: nat)
    requires s.Valid() && Regular(s, bin, sp) && Pinched(s, sp) && k < 4
    ensures s.center.point in Rings(s, sp)[k]
  {
    hide Regular, Rings, Spokes, OpenAt, TouchAt, Has;
    FourRings(s, bin, sp);
    SpokesOpen(s, sp);
    var j := if OpenAt(s, sp, k) then k else After(k);
    var before := Before(j);
    assert After(before) == j && OpenAt(s, sp, j);
    SpokeShared(s, bin, sp, before);
    InnerIsHub(s, sp, j);
    HolderHasEnds(Rings(s, sp)[before], Edge(Spokes(s, sp)[j].outer, Spokes(s, sp)[j].inner));
    HolderHasEnds(Rings(s, sp)[j], Edge(Spokes(s, sp)[j].inner, Spokes(s, sp)[j].outer));
  }

  lemma HubEndsFirst(s: CellSample, bin: LevelBin, sp: Span)
    requires s.Valid() && Regular(s, bin, sp) && Pinched(s, sp)
    ensures var ring := Rings(s, sp)[0]; ring != [] && (ring[0] == s.center.point || ring[|ring| - 1] == s.center.point)
  {
    hide Regular, OpenAt, Turned, KeptRing, KeptAt;
    HubInRing(s, bin, sp, 0);
    FragmentIsRing(s, bin, sp, 0);
    HubAtEnd(WedgeAt(s, 0), sp);
  }

  // ---- the centre beyond a bound ----

  ghost predicate SomeTouch(s: CellSample, sp: Span)
    requires s.Valid()
  {
    TouchAt(s, sp, 0) || TouchAt(s, sp, 1) || TouchAt(s, sp, 2) || TouchAt(s, sp, 3)
  }

  /** Then every triangle leaves a fragment, and the spokes beside a touch are open. */
  lemma TouchedCell(s: CellSample, sp: Span, k: nat)
    requires s.Valid() && sp.lo < sp.hi && SomeTouch(s, sp) && k < 4
    ensures !Central(s.center.value, sp) && KeptAt(s, sp, k)
    ensures TouchAt(s, sp, After(k)) ==> OpenAt(s, sp, k) && OpenAt(s, sp, After(After(k)))
  {
    assert !Central(s.center.value, sp);
    BeyondCell(s, sp, 0);
    BeyondCell(s, sp, 1);
    BeyondCell(s, sp, 2);
    BeyondCell(s, sp, 3);
    hide KeptAt, OpenAt, TouchAt, SideAt, Central;
  }

  lemma CellTouches(s: CellSample, bin: LevelBin, sp: Span)
    requires s.Valid() && Regular(s, bin, sp) && SomeTouch(s, sp)
    ensures TouchFan(s.center.point, Rings(s, sp), Spokes(s, sp)) && !Central(s.center.value, sp) && sp.lo < sp.hi
  {
    assert sp.lo < sp.hi;
    hide Regular, KeptAt, OpenAt, TouchAt, Shaped, Fan, Rings, Spokes, Central, SomeTouch;
    FourRings(s, bin, sp);
    TouchedCell(s, sp, 0);
    var hub, r, spokes := s.center.point, Rings(s, sp), Spokes(s, sp);
    CellIsFan(s, bin, sp);
    SpokesOpen(s, sp);
    forall k | 0 <= k < 4 ensures hub !in r[k] && Shaped(r[k], spokes[k], spokes[After(k)]) {
      TouchedCell(s, sp, k);
      RingShaped(s, bin, sp, k);
      SpokesAre(s, sp, k);
      SpokesAre(s, sp, After(k));
      if hub in r[k] { HubMeans(s, bin, sp, k); }
    }
    forall k | 0 <= k < 4 && spokes[After(k)].touching ensures spokes[k].open && spokes[After(After(k))].open {
      TouchedCell(s, sp, k);
    }
  }

  lemma SpokesAre(s: CellSample, sp: Span, k: nat)
    requires s.Valid() && k < 4
    ensures Spokes(s, sp)[k] == SpokeAt(s, sp, k)
  {
    hide SpokeAt;
  }

  /** Fragments touch at the last corner, and the second spoke does not join them. */
  ghost predicate Tied(s: CellSample, sp: Span)
    requires s.Valid()
  {
    TouchAt(s, sp, 3) && !OpenAt(s, sp, 1)
  }

  // ---- the area ----

  /** Shared edges cancel in direction. */
  lemma RegularCancels(s: CellSample, bin: LevelBin, sp: Span)
    requires s.Valid() && Regular(s, bin, sp)
    ensures DirectionsCancel(FragmentEdges(CellFragments(s, bin, 4)))
  {
    hide *;
    CellIsFan(s, bin, sp);
    CellEdges(s, bin, sp);
    FanCancels(s.center.point, Rings(s, sp), Spokes(s, sp));
  }

  lemma UntiedKeepsArea(s: CellSample, bin: LevelBin, sp: Span)
    requires s.Valid() && Regular(s, bin, sp) && !Tied(s, sp)
    ensures RingsArea(Merged(CellFragments(s, bin, 4))) == RingsArea(CellFragments(s, bin, 4))
  {
    hide *;
    var fragments := CellFragments(s, bin, 4);
    FourRings(s, bin, sp);
    RegularCancels(s, bin, sp);
    CellEdges(s, bin, sp);
    CellIsFan(s, bin, sp);
    BoundaryIs(fragments);
    if Pinched(s, sp) {
      CellPinches(s, bin, sp);
      var h := FanPinches(s.center.point, Rings(s, sp), Spokes(s, sp));
      PinchKeepsArea(fragments, [h]);
    } else if SomeTouch(s, sp) {
      CellTouches(s, bin, sp);
      UntiedSpokes(s, sp);
      var hubs := TouchPinches(s.center.point, Rings(s, sp), Spokes(s, sp));
      PinchKeepsArea(fragments, hubs);
    } else {
      UnpinchedInside(s, bin, sp);
      NoTouch(s, sp);
      FanTargets(s.center.point, Rings(s, sp), Spokes(s, sp));
      SingleTargetsKeepArea(fragments);
    }
  }

  lemma UntiedSpokes(s: CellSample, sp: Span)
    requires s.Valid() && !Tied(s, sp)
    ensures |Spokes(s, sp)| == 4 && (Spokes(s, sp)[3].touching ==> Spokes(s, sp)[1].open)
  {
    hide OpenAt, TouchAt, Inner, Outer;
  }

  lemma NoTouch(s: CellSample, sp: Span)
    requires s.Valid() && !SomeTouch(s, sp)
    ensures forall v :: Untouched(Spokes(s, sp), v)
  {
    hide OpenAt, TouchAt, Inner, Outer;
  }

  /** In a tied cell one walk takes the whole boundary, two triangles' part backwards. */
  lemma TiedLosesArea(s: CellSample, bin: LevelBin, sp: Span)
    requires s.Valid() && Regular(s, bin, sp) && Tied(s, sp)
    ensures var fragments := CellFragments(s, bin, 4);
      && |Trace(Boundary(fragments))| == 1
      && RingsArea(Merged(fragments)) == RingsArea(fragments) - (LoopSum(Rings(s, sp)[1]) + LoopSum(Rings(s, sp)[2]))
      && LoopSum(Rings(s, sp)[1]) + LoopSum(Rings(s, sp)[2]) != 0.0
  {
    hide *;
    var fragments := CellFragments(s, bin, 4);
    FourRings(s, bin, sp);
    TiedTouches(s, sp);
    CellTouches(s, bin, sp);
    TiedFan(s, bin, sp);
    CellEdges(s, bin, sp);
    BoundaryIs(fragments);
    KnottedWalk(s.center.point, Rings(s, sp), Spokes(s, sp));
    RegularCancels(s, bin, sp);
    MergedAreaExact(fragments);
    SameSign(s, bin, sp);
  }

  lemma TiedTouches(s: CellSample, sp: Span)
    requires s.Valid() && Tied(s, sp)
    ensures SomeTouch(s, sp)
  {
    hide TouchAt, OpenAt;
  }

  lemma TiedFan(s: CellSample, bin: LevelBin, sp: Span)
    requires s.Valid() && Tied(s, sp) && TouchFan(s.center.point, Rings(s, sp), Spokes(s, sp))
    ensures KnottedFan(s.center.point, Rings(s, sp), Spokes(s, sp))
  {
    hide TouchAt, OpenAt, TouchFan, Rings, Inner, Outer;
    BoundaryIsShares(s.center.point, Rings(s, sp), Spokes(s, sp));
  }

  /** All kept rings turn the way the outline does. */
  lemma SameSign(s: CellSample, bin: LevelBin, sp: Span)
    requires s.Valid() && Regular(s, bin, sp) && Tied(s, sp)
    ensures |Rings(s, sp)| == 4 && LoopSum(Rings(s, sp)[1]) + LoopSum(Rings(s, sp)[2]) != 0.0
  {
    assert KeptAt(s, sp, 2);
    assert KeptAt(s, sp, 1) by {
      BeyondCell(s, sp, 3);
      BeyondCell(s, sp, 1);
    }
    assert !Central(s.center.value, sp);
    hide KeptAt, Tied, Central;
    RingSign(s, bin, sp, 1);
    RingSign(s, bin, sp, 2);
    hide Rings, Regular, LoopSum, Det;
  }

  lemma RingSign(s: CellSample, bin: LevelBin, sp: Span, k: nat)
    requires s.Valid() && Regular(s, bin, sp) && k < 4 && !Central(s.center.value, sp) && KeptAt(s, sp, k)
    ensures Around(s.center.point, s.Outline()) && |Rings(s, sp)| == 4
    ensures var d := Det(s.center.point, s.Outline()[k], s.Outline()[After(k)]);
      var x := LoopSum(Rings(s, sp)[k]);
      (x > 0.0 <==> d > 0.0) && (x < 0.0 <==> d < 0.0)
  {
    hide Core, Det, LoopSum, Filled, KeptRing, Perimeters;
    TriangleWedge(s, bin, sp, k);
    BeyondRing(s, bin, sp, k);
    KeptHasArea(WedgeAt(s, k), sp);
    assert s.Outline()[k] == s.corners[k].point && s.Outline()[After(k)] == s.corners[After(k)].point;
  }

  // ---- for the bins themselves ----

  /** A bin with a lower bound below its upper bound. */
  predicate ProperBin(bin: LevelBin) {
    && !bin.lower.PosInfinity? && !bin.upper.NegInfinity?
    && (bin.lower.Finite? && bin.upper.Finite? ==> bin.lower.bound < bin.upper.bound)
  }

  /** The last corner lies on a bound of the bin with the centre strictly beyond it; its two
      neighbours lie strictly on the bin's side, and the corner opposite does not. */
  predicate Knotted(s: CellSample, bin: LevelBin)
    requires s.Valid()
  {
    var m, v0, v1, v2, v3 := s.center.value, s.corners[0].value, s.corners[1].value, s.corners[2].value, s.corners[3].value;
    || (bin.lower.Finite? && var b := bin.lower.bound; v3 == b && m < b && v0 > b && v2 > b && v1 <= b)
    || (bin.upper.Finite? && var b := bin.upper.bound; v3 == b && m > b && v0 < b && v2 < b && v1 >= b)
  }

  /** With the mean of the corner values at the centre the opposite corner need not be
      looked at. */
  lemma MeanKnot(s: CellSample, bin: LevelBin)
    requires s.Valid()
    requires s.center.value == (s.corners[0].value + s.corners[1].value + s.corners[2].value + s.corners[3].value) * 0.25
    ensures var m, v0, v2, v3 := s.center.value, s.corners[0].value, s.corners[2].value, s.corners[3].value;
      Knotted(s, bin) <==>
      || (bin.lower == LevelBound.Finite(v3) && m < v3 && v0 > v3 && v2 > v3)
      || (bin.upper == LevelBound.Finite(v3) && m > v3 && v0 < v3 && v2 < v3)
  {
  }

  /** Finite stand-ins for open ends, beyond all five values. */
  lemma SpanOf(s: CellSample, bin: LevelBin) returns (sp: Span)
    requires s.Valid() && ProperBin(bin) && Around(s.center.point, s.Outline())
    ensures Regular(s, bin, sp)
  {
    hide Around;
    var low, high := Extent(s);
    var below := if bin.upper.Finite? && bin.upper.bound < low then bin.upper.bound else low;
    var lo := if bin.lower.Finite? then bin.lower.bound else below - 1.0;
    var hi := if bin.upper.Finite? then bin.upper.bound else (if lo > high then lo else high) + 1.0;
    sp := Span(lo, hi, bin.upperInclusive);
  }

  lemma Extent(s: CellSample) returns (low: real, high: real)
    requires s.Valid()
    ensures low <= s.center.value <= high && forall k :: 0 <= k < 4 ==> low <= s.corners[k].value <= high
  {
    low, high := s.center.value, s.center.value;
    for i := 0 to 4
      invariant low <= s.center.value <= high && forall k :: 0 <= k < i ==> low <= s.corners[k].value <= high
    {
      var v := s.corners[i].value;
      if v < low { low := v; }
      if v > high { high := v; }
    }
  }

  lemma KnottedIsTied(s: CellSample, bin: LevelBin, sp: Span)
    requires s.Valid() && Regular(s, bin, sp)
    ensures Knotted(s, bin) <==> Tied(s, sp)
  {
    assert sp.lo < sp.hi && Fits(sp, bin, s.center.value) && Fits(sp, bin, s.corners[3].value);
    hide Regular, KeptAt, OpenAt;
    if !Central(s.center.value, sp) {
      BeyondCell(s, sp, 3);
      BeyondCell(s, sp, 1);
      assert After(3) == 0 && Before(3) == 2;
    } else {
      assert !Tied(s, sp) by { hide Fits; }
      assert !Knotted(s, bin) by { hide Tied; }
    }
  }

  /** Merging a cell's fragments keeps their signed area exactly if the cell is not knotted
      in the bin, and loses no ring. */
  lemma MergeKeepsCellArea(s: CellSample, bin: LevelBin)
    requires s.Valid() && ProperBin(bin) && Around(s.center.point, s.Outline())
    ensures RingsArea(Merged(CellFragments(s, bin, 4))) == CellBinArea(s, bin, 4) <==> !Knotted(s, bin)
    ensures NoOddRepeats(FragmentEdges(CellFragments(s, bin, 4)))
  {
    hide *;
    var sp := SpanOf(s, bin);
    CellFragmentsArea(s, bin, 4);
    KnottedIsTied(s, bin, sp);
    if Tied(s, sp) { TiedLosesArea(s, bin, sp); } else { UntiedKeepsArea(s, bin, sp); }
    RegularCancels(s, bin, sp);
    FragmentEdgesLoopFree(CellFragments(s, bin, 4));
    CancelMeansEven(FragmentEdges(CellFragments(s, bin, 4)));
  }

  /** What the merged polygons of a knotted cell cover: the triangles at the first and the
      last corner, less those at the other two. */
  lemma KnottedArea(s: CellSample, bin: LevelBin)
    requires s.Valid() && ProperBin(bin) && Around(s.center.point, s.Outline()) && Knotted(s, bin)
    ensures |Trace(Boundary(CellFragments(s, bin, 4)))| == 1
    ensures var area := (k: nat) requires k < 4 => FragmentArea(ClipTriangleToBin(s.Triangle(k), bin));
      RingsArea(Merged(CellFragments(s, bin, 4))) == area(0) + area(3) - area(1) - area(2)
  {
    hide *;
    var sp := SpanOf(s, bin);
    KnottedIsTied(s, bin, sp);
    TiedLosesArea(s, bin, sp);
    CellFragmentsArea(s, bin, 4);
    FourAreas(s, bin);
    RingArea(s, bin, sp, 1);
    RingArea(s, bin, sp, 2);
  }

  lemma FourAreas(s: CellSample, bin: LevelBin)
    requires s.Valid()
    ensures var area := (k: nat) requires k < 4 => FragmentArea(ClipTriangleToBin(s.Triangle(k), bin));
      CellBinArea(s, bin, 4) == area(0) + area(1) + area(2) + area(3)
  {
    hide ClipTriangleToBin, FragmentArea;
    assert CellBinArea(s, bin, 2) == CellBinArea(s, bin, 1) + FragmentArea(ClipTriangleToBin(s.Triangle(1), bin));
    assert CellBinArea(s, bin, 3) == CellBinArea(s, bin, 2) + FragmentArea(ClipTriangleToBin(s.Triangle(2), bin));
  }

  lemma RingArea(s: CellSample, bin: LevelBin, sp: Span, k: nat)
    requires s.Valid() && Regular(s, bin, sp) && k < 4
    ensures |Rings(s, sp)| == 4 && LoopSum(Rings(s, sp)[k]) * 0.5 == FragmentArea(ClipTriangleToBin(s.Triangle(k), bin))
  {
    hide ClipTriangleToBin, Rings, Regular, Turned, LoopSum, Area, KeptAt;
    FourRings(s, bin, sp);
    FragmentIsRing(s, bin, sp, k);
    AreaIsHalfLoop(Rings(s, sp)[k]);
    EmptyArea();
  }

  lemma EmptyArea()
    ensures Area([]) == 0.0
  {
  }

  /** The corners of a convex cell around their mean. */
  ghost predicate ConvexCell(s: CellSample) {
    s.Valid() && Convex(s.Outline()) && s.center.point == Centroid(s.Outline())
  }

  lemma ConvexCellKeepsArea(s: CellSample, bin: LevelBin)
    requires ConvexCell(s) && s.Valid() && ProperBin(bin)
    ensures RingsArea(Merged(CellFragments(s, bin, 4))) == CellBinArea(s, bin, 4) <==> !Knotted(s, bin)
    ensures NoOddRepeats(FragmentEdges(CellFragments(s, bin, 4)))
  {
    ConvexAround(s.Outline());
    hide *;
    MergeKeepsCellArea(s, bin);
  }
}
