/** Instances of lost area: a saddle with its last corner exactly on a bound of the bin,
    where merging drops the whole band, and a cell that folds over itself, where a ring is
    cleared. */
module ContourMergeLoss {
  import opened Basics
  import opened ContourGeometry
  import opened ContourClip
  import opened ContourLevels
  import opened ContourBands
  import opened ContourFill
  import opened ContourTrace
  import opened ContourMerge
  import opened ContourMergeArea
  import opened ContourWheel
  import opened ContourBandKept
  import opened ContourFan
  import opened ContourKnot
  import opened ContourCellArea

  // ---- a knotted cell ----

  /** The unit square with values 3, 7, 3, 4 and their mean at its centre. */
  function Saddle(): CellSample {
    CellSample([SamplePoint(Point2(0.0, 0.0), 3.0), SamplePoint(Point2(1.0, 0.0), 7.0),
                SamplePoint(Point2(1.0, 1.0), 3.0), SamplePoint(Point2(0.0, 1.0), 4.0)],
               SamplePoint(Point2(0.5, 0.5), 4.25))
  }

  function OneToFour(): LevelBin { LevelBin(0, LevelBound.Finite(1.0), LevelBound.Finite(4.0), false) }

  function SaddleRing(i: nat): seq<Point2>
    requires i < 4
  {
    match i
    case 0 => [Point2(0.4, 0.4), Point2(0.0, 0.0), Point2(0.25, 0.0)]
    case 1 => [Point2(1.0, 0.75), Point2(1.0, 1.0), Point2(0.6, 0.6)]
    case 2 => [Point2(0.6, 0.6), Point2(1.0, 1.0), Point2(0.0, 1.0)]
    case _ => [Point2(0.0, 1.0), Point2(0.0, 0.0), Point2(0.4, 0.4)]
  }

  lemma ClipThree(p: SamplePoint, q: SamplePoint, r: SamplePoint, b: real, rule: ClipRule)
    ensures Clip([p, q, r], b, rule) == Piece(r, p, b, rule) + Piece(p, q, b, rule) + Piece(q, r, b, rule)
  {
    hide Piece;
    assert [p, q, r][1..] == [q, r] && [q, r][1..] == [r] && [r][1..] == [];
    assert ClipFrom(q, [r], b, rule) == Piece(q, r, b, rule) + [];
    assert ClipFrom(p, [q, r], b, rule) == Piece(p, q, b, rule) + ClipFrom(q, [r], b, rule);
  }

  /** In a bin that only its upper bound cuts. */
  lemma FragmentOf(t: seq<SamplePoint>, bin: LevelBin, ring: seq<Point2>)
    requires |t| == 3 && bin.upper.Finite? && !bin.upperInclusive && Simple(ring) && Area(ring) != 0.0
    requires bin.lower.Finite? ==> forall i :: 0 <= i < 3 ==> t[i].value >= bin.lower.bound
    requires |Clip(t, bin.upper.bound, UpperExclusive)| >= 3
    requires SanitizeRing(Points(Clip(t, bin.upper.bound, UpperExclusive))) == ring
    ensures ClipTriangleToBin(t, bin) == Some(ring)
  {
    hide Clip, Area, SanitizeRing;
    if bin.lower.Finite? { ClipAll(t, bin.lower.bound, LowerInclusive); }
  }

  /** The level is met a fraction t along the edge. */
  lemma MeetsAt(px: real, py: real, pv: real, cx: real, cy: real, cv: real, level: real, t: real)
    requires 0.0 <= t <= 1.0 && pv != cv && level - pv == t * (cv - pv)
    ensures Interpolate(SamplePoint(Point2(px, py), pv), SamplePoint(Point2(cx, cy), cv), level).point
         == Point2(px + (cx - px) * t, py + (cy - py) * t)
  {
    hide Interpolate;
    MeetsLerp(SamplePoint(Point2(px, py), pv), SamplePoint(Point2(cx, cy), cv), level, t);
  }

  lemma MeetsLerp(p: SamplePoint, c: SamplePoint, level: real, t: real)
    requires 0.0 <= t <= 1.0 && p.value != c.value && level - p.value == t * (c.value - p.value)
    ensures Interpolate(p, c, level).point == Lerp(p.point, c.point, t)
  {
    hide Lerp;
    Quotient(level - p.value, c.value - p.value, t);
  }

  lemma Quotient(x: real, d: real, t: real)
    requires d != 0.0 && x == t * d
    ensures x / d == t
  {
    var q := x / d;
    assert q * d == x;
    assert (q - t) * d == q * d - t * d;
    ZeroProduct(q - t, d);
  }

  lemma AreaAt(px: real, py: real, qx: real, qy: real, rx: real, ry: real)
    ensures Area([Point2(px, py), Point2(qx, qy), Point2(rx, ry)])
         == ((rx * py - px * ry) + (px * qy - qx * py) + (qx * ry - rx * qy)) * 0.5
  {
    hide Area;
    TriangleArea(Point2(px, py), Point2(qx, qy), Point2(rx, ry));
  }

  lemma SaddleAreas()
    ensures Area(SaddleRing(0)) == 0.05 && Area(SaddleRing(1)) == 0.05
    ensures Area(SaddleRing(2)) == 0.2 && Area(SaddleRing(3)) == 0.2
  {
    hide Area;
    AreaAt(0.4, 0.4, 0.0, 0.0, 0.25, 0.0);
    AreaAt(1.0, 0.75, 1.0, 1.0, 0.6, 0.6);
    AreaAt(0.6, 0.6, 1.0, 1.0, 0.0, 1.0);
    AreaAt(0.0, 1.0, 0.0, 0.0, 0.4, 0.4);
  }

  /** A triangle with one corner below the level keeps that corner. */
  lemma OneCornerBelow(t: seq<SamplePoint>, k: nat, bin: LevelBin, x: Point2, y: Point2)
    requires |t| == 3 && k < 2 && bin.upper.Finite? && !bin.upperInclusive
    requires bin.lower.Finite? ==> forall i :: 0 <= i < 3 ==> t[i].value >= bin.lower.bound
    requires forall i :: 0 <= i < 3 ==> (t[i].value < bin.upper.bound <==> i == k)
    requires Interpolate(if k == 0 then t[2] else t[0], t[k], bin.upper.bound).point == x
    requires Interpolate(t[k], t[k + 1], bin.upper.bound).point == y
    requires Simple([x, t[k].point, y]) && Area([x, t[k].point, y]) != 0.0
    ensures ClipTriangleToBin(t, bin) == Some([x, t[k].point, y])
  {
    hide Interpolate, Clip, Area, ClipTriangleToBin, SanitizeRing, Simple;
    assert t == [t[0], t[1], t[2]];
    ClipThree(t[0], t[1], t[2], bin.upper.bound, UpperExclusive);
    var ring := [x, t[k].point, y];
    assert Points(Clip(t, bin.upper.bound, UpperExclusive)) == ring;
    SanitizeNothing(ring) by { assert NoRepeats(ring) by { SimpleDiffers(ring); } }
    FragmentOf(t, bin, ring);
  }

  lemma SimpleDiffers(ring: seq<Point2>)
    requires Simple(ring)
    ensures NoRepeats(ring)
  {
  }

  lemma SaddleFragment(i: nat)
    requires i < 4
    ensures ClipTriangleToBin(Saddle().Triangle(i), OneToFour()) == Some(SaddleRing(i))
  {
    hide Interpolate, Area, ClipTriangleToBin;
    var t, bin, ring := Saddle().Triangle(i), OneToFour(), SaddleRing(i);
    SaddleAreas();
    if i == 0 {
      MeetsAt(0.5, 0.5, 4.25, 0.0, 0.0, 3.0, 4.0, 0.2);
      MeetsAt(0.0, 0.0, 3.0, 1.0, 0.0, 7.0, 4.0, 0.25);
      OneCornerBelow(t, 0, bin, ring[0], ring[2]);
    } else if i == 1 {
      MeetsAt(1.0, 0.0, 7.0, 1.0, 1.0, 3.0, 4.0, 0.75);
      MeetsAt(1.0, 1.0, 3.0, 0.5, 0.5, 4.25, 4.0, 0.8);
      OneCornerBelow(t, 1, bin, ring[0], ring[2]);
    } else if i == 2 {
      MeetsAt(0.5, 0.5, 4.25, 1.0, 1.0, 3.0, 4.0, 0.2);
      MeetsAt(1.0, 1.0, 3.0, 0.0, 1.0, 4.0, 4.0, 1.0);
      OneCornerBelow(t, 0, bin, ring[0], ring[2]);
    } else {
      MeetsAt(0.0, 1.0, 4.0, 0.0, 0.0, 3.0, 4.0, 0.0);
      MeetsAt(0.0, 0.0, 3.0, 0.5, 0.5, 4.25, 4.0, 0.8);
      OneCornerBelow(t, 1, bin, ring[0], ring[2]);
    }
  }

  /** The cell is convex, its fragments cover half of it, and merging drops them all. */
  lemma SaddleLosesBand()
    ensures ConvexCell(Saddle()) && ProperBin(OneToFour()) && Knotted(Saddle(), OneToFour())
    ensures CellBinArea(Saddle(), OneToFour(), 4) == 0.5
    ensures Merged(CellFragments(Saddle(), OneToFour(), 4)) == []
  {
    var s, bin := Saddle(), OneToFour();
    hide ClipTriangleToBin, Area, Merged, RingsArea, ConvexCell, CellFragments, ProperBin, Knotted, SaddleRing, Trace, Around;
    SaddleShape();
    SaddleFragment(0);
    SaddleFragment(1);
    SaddleFragment(2);
    SaddleFragment(3);
    SaddleAreas();
    FourAreas(s, bin);
    ConvexSees(s);
    KnottedArea(s, bin);
    NothingKept(CellFragments(s, bin, 4));
  }

  lemma ConvexSees(s: CellSample)
    requires ConvexCell(s)
    ensures Around(s.center.point, s.Outline())
  {
    ConvexAround(s.Outline());
  }

  /** A single walk without area leaves no polygon. */
  lemma NothingKept(fragments: seq<seq<Point2>>)
    requires |Trace(Boundary(fragments))| == 1 && RingsArea(Merged(fragments)) == 0.0
    ensures Merged(fragments) == []
  {
    hide Boundary, Trace, Area, Kept;
    var trips := Trace(Boundary(fragments));
    var ring := trips[0].ring;
    assert RingsOf(trips) == [ring] by { assert trips[1..] == []; }
    KeptArea([ring]);
    SoleRing(ring);
    NoAreaNotKept(ring);
  }

  lemma SoleRing(ring: seq<Point2>)
    ensures RingsArea([ring]) == Area(ring)
  {
    assert [ring][..0] == [];
  }

  lemma NoAreaNotKept(ring: seq<Point2>)
    requires Area(ring) == 0.0
    ensures Kept([ring]) == []
  {
    hide Area, SanitizeRing;
    SanitizedArea(ring);
    assert [ring][..0] == [];
  }

  lemma DetAt(px: real, py: real, qx: real, qy: real, rx: real, ry: real)
    ensures Det(Point2(px, py), Point2(qx, qy), Point2(rx, ry)) == (qx - px) * (ry - py) - (rx - px) * (qy - py)
  {
  }

  lemma SaddleShape()
    ensures ConvexCell(Saddle()) && ProperBin(OneToFour()) && Knotted(Saddle(), OneToFour())
  {
    hide Det;
    var s := Saddle();
    var c := [Point2(0.0, 0.0), Point2(1.0, 0.0), Point2(1.0, 1.0), Point2(0.0, 1.0)];
    DetAt(0.0, 0.0, 1.0, 0.0, 1.0, 1.0);
    DetAt(1.0, 0.0, 1.0, 1.0, 0.0, 1.0);
    DetAt(1.0, 1.0, 0.0, 1.0, 0.0, 0.0);
    DetAt(0.0, 1.0, 0.0, 0.0, 1.0, 0.0);
    assert s.Outline() == c;
  }

  // ---- a folded cell ----

  lemma TriangleEdges(p: Point2, q: Point2, r: Point2)
    requires p != q && q != r && r != p
    ensures Simple([p, q, r]) && EdgesOf([p, q, r]) == [Edge(p, q), Edge(q, r), Edge(r, p)]
  {
    hide RingEdges;
    var ring := [p, q, r];
    RingEdgesAt(ring, 0);
    RingEdgesAt(ring, 1);
    RingEdgesAt(ring, 2);
  }

  lemma EmptyFragments()
    ensures FragmentEdges([]) == []
  {
  }

  lemma SinglesThree(e: Edge, f: Edge, g: Edge, all: seq<Edge>)
    ensures Singles([e, f, g], all, true)
         == (if Count(all, Key(e)) == 1 then [e] else []) + (if Count(all, Key(f)) == 1 then [f] else [])
            + if Count(all, Key(g)) == 1 then [g] else []
  {
    hide Count, Key;
    assert [e, f, g][..2] == [e, f] && [e, f][..1] == [e] && [e][..0] == [];
    assert Singles([e], all, true) == if Count(all, Key(e)) == 1 then [e] else [];
    assert Singles([e, f], all, true) == Singles([e], all, true) + if Count(all, Key(f)) == 1 then [f] else [];
  }

  lemma WalkStep(edges: seq<Edge>, t: Trip, i: nat)
    requires t.ring != [] && |edges| == |t.used| && Here(t) != t.ring[0] && i < |edges| && !t.used[i]
    requires edges[i].a == Here(t) || edges[i].b == Here(t)
    requires forall j :: 0 <= j < i && !t.used[j] ==> edges[j].a != Here(t) && edges[j].b != Here(t)
    ensures WalkOn(edges, t) == WalkOn(edges, Onward(edges, t, i))
  {
    FirstFreeIs(edges, t.used, Here(t), i);
    MarkUnusedCount(t.used, i);
  }

  /** Two triangles that cover each other and a third beside them: the edge of all three
      stays out of the boundary, which is then no closed ring. */
  datatype Fold = Fold(p: Point2, q: Point2, c: Point2, x: Point2) {
    ghost predicate Distinct() { p != q && p != c && p != x && q != c && q != x && c != x }

    function Rings(): seq<seq<Point2>> { [[p, q, c], [c, q, p], [c, p, x]] }
  }

  lemma FoldEdges(f: Fold)
    requires f.Distinct()
    ensures forall i :: 0 <= i < 3 ==> Simple(f.Rings()[i])
    ensures FragmentEdges(f.Rings()) == EdgesOf(f.Rings()[0]) + EdgesOf(f.Rings()[1]) + EdgesOf(f.Rings()[2])
  {
    hide Simple, EdgesOf, FragmentEdges;
    var a, b, d := [f.p, f.q, f.c], [f.c, f.q, f.p], [f.c, f.p, f.x];
    TriangleEdges(f.p, f.q, f.c);
    TriangleEdges(f.c, f.q, f.p);
    TriangleEdges(f.c, f.p, f.x);
    FragmentEdgesAppend([], a);
    FragmentEdgesAppend([a], b);
    FragmentEdgesAppend([a, b], d);
    EmptyFragments();
    assert [] + [a] == [a] && [a] + [b] == [a, b] && [a, b] + [d] == f.Rings();
    assert [] + EdgesOf(a) == EdgesOf(a);
  }

  lemma FoldCount(f: Fold, e: Edge)
    requires f.Distinct() && e.a != e.b
    ensures var r := f.Rings();
      Count(FragmentEdges(r), Key(e)) == HoldEither(r[0], e) + HoldEither(r[1], e) + HoldEither(r[2], e)
  {
    hide Count, Key, FragmentEdges, EdgesOf, Simple, Has;
    FoldEdges(f);
    var r := f.Rings();
    var a, b, d := EdgesOf(r[0]), EdgesOf(r[1]), EdgesOf(r[2]);
    CountDirected(a + b + d, e);
    forall g: Edge ensures Directed(a + b + d, g) == Hold(r[0], g) + Hold(r[1], g) + Hold(r[2], g) {
      DirectedConcat(a, b, g);
      DirectedConcat(a + b, d, g);
      RingDirected(r[0], g);
      RingDirected(r[1], g);
      RingDirected(r[2], g);
    }
  }

  lemma TriangleHolds(p: Point2, q: Point2, r: Point2, e: Edge)
    requires p != q && q != r && r != p
    ensures Has([p, q, r], e) <==> e == Edge(p, q) || e == Edge(q, r) || e == Edge(r, p)
  {
    hide EdgesOf;
    TriangleEdges(p, q, r);
  }

  lemma FoldCounts(f: Fold)
    requires f.Distinct()
    ensures var all := FragmentEdges(f.Rings());
      && Count(all, Key(Edge(f.p, f.q))) == 2 && Count(all, Key(Edge(f.q, f.c))) == 2 && Count(all, Key(Edge(f.c, f.p))) == 3
      && Count(all, Key(Edge(f.c, f.q))) == 2 && Count(all, Key(Edge(f.q, f.p))) == 2 && Count(all, Key(Edge(f.p, f.c))) == 3
      && Count(all, Key(Edge(f.p, f.x))) == 1 && Count(all, Key(Edge(f.x, f.c))) == 1
  {
    hide Count, Key, FragmentEdges, Has;
    forall e: Edge
      ensures Has([f.p, f.q, f.c], e) <==> e == Edge(f.p, f.q) || e == Edge(f.q, f.c) || e == Edge(f.c, f.p)
      ensures Has([f.c, f.q, f.p], e) <==> e == Edge(f.c, f.q) || e == Edge(f.q, f.p) || e == Edge(f.p, f.c)
      ensures Has([f.c, f.p, f.x], e) <==> e == Edge(f.c, f.p) || e == Edge(f.p, f.x) || e == Edge(f.x, f.c)
    {
      TriangleHolds(f.p, f.q, f.c, e);
      TriangleHolds(f.c, f.q, f.p, e);
      TriangleHolds(f.c, f.p, f.x, e);
    }
    FoldCount(f, Edge(f.p, f.q));
    FoldCount(f, Edge(f.q, f.c));
    FoldCount(f, Edge(f.c, f.p));
    FoldCount(f, Edge(f.c, f.q));
    FoldCount(f, Edge(f.q, f.p));
    FoldCount(f, Edge(f.p, f.c));
    FoldCount(f, Edge(f.p, f.x));
    FoldCount(f, Edge(f.x, f.c));
  }

  lemma FoldBoundary(f: Fold)
    requires f.Distinct()
    ensures Boundary(f.Rings()) == [Edge(f.p, f.x), Edge(f.x, f.c)]
  {
    hide Count, Key, FragmentEdges, Singles, EdgesOf;
    FoldEdges(f);
    FoldCounts(f);
    TriangleEdges(f.p, f.q, f.c);
    TriangleEdges(f.c, f.q, f.p);
    TriangleEdges(f.c, f.p, f.x);
    var all := FragmentEdges(f.Rings());
    var a, b, d := EdgesOf([f.p, f.q, f.c]), EdgesOf([f.c, f.q, f.p]), EdgesOf([f.c, f.p, f.x]);
    SinglesThree(a[0], a[1], a[2], all);
    SinglesThree(b[0], b[1], b[2], all);
    SinglesThree(d[0], d[1], d[2], all);
    SinglesConcat(a, b, all);
    SinglesConcat(a + b, d, all);
  }

  /** The walk ends at a point with no edge left, and the ring is cleared. */
  lemma OpenPathCleared(p: Point2, x: Point2, c: Point2)
    requires p != x && x != c && c != p
    ensures RingsOf(Trace([Edge(p, x), Edge(x, c)])) == [[]]
  {
    var e, done := [Edge(p, x), Edge(x, c)], [true, true];
    var s, t := Trip([p, x], [0], [true, false]), Trip([p, x, c], [0, 1], done);
    assert Depart(e, Unused(2), 0) == s && Onward(e, s, 1) == t;
    WalkStep(e, s, 1);
    assert FirstFree(e, done, c, 0) == None;
    var r := Trip([], t.trail, done);
    assert WalkOn(e, t) == r;
    AllTaken(e, done, 1);
    assert Trace(e) == [r] + [];
    assert [r][1..] == [];
  }

  lemma FoldCleared(f: Fold)
    requires f.Distinct()
    ensures Merged(f.Rings()) == [] && !NoOddRepeats(FragmentEdges(f.Rings()))
  {
    hide FragmentEdges, Count, Key, Boundary, Kept, Trace, RingsOf;
    FoldCounts(f);
    OddIsOdd(FragmentEdges(f.Rings()), Edge(f.c, f.p));
    FoldBoundary(f);
    OpenPathCleared(f.p, f.x, f.c);
    NoAreaNotKept([]);
  }

  lemma OddIsOdd(edges: seq<Edge>, e: Edge)
    requires Count(edges, Key(e)) == 3
    ensures !NoOddRepeats(edges)
  {
    hide Count, Key;
  }

  /** Corner 1 and corner 3 of this cell are the same point. */
  function FoldedCell(): CellSample {
    CellSample([SamplePoint(Point2(1.0, 1.0), 6.0), SamplePoint(Point2(2.0, 1.0), 3.0),
                SamplePoint(Point2(1.0, 3.0), 1.0), SamplePoint(Point2(2.0, 1.0), 2.0)],
               SamplePoint(Point2(1.5, 1.5), 3.0))
  }

  function BelowThree(): LevelBin { LevelBin(0, LevelBound.NegInfinity, LevelBound.Finite(3.0), false) }

  function CellFold(): Fold { Fold(Point2(2.0, 1.0), Point2(1.0, 3.0), Point2(1.5, 1.5), Point2(1.75, 1.0)) }

  lemma FoldAreas()
    ensures var f := CellFold();
      && Area([f.p, f.q, f.c]) == 0.25 && Area([f.c, f.q, f.p]) == -0.25 && Area([f.c, f.p, f.x]) == -0.0625
  {
    hide Area;
    AreaAt(2.0, 1.0, 1.0, 3.0, 1.5, 1.5);
    AreaAt(1.5, 1.5, 1.0, 3.0, 2.0, 1.0);
    AreaAt(1.5, 1.5, 2.0, 1.0, 1.75, 1.0);
  }

  lemma FoldFragment(i: nat)
    requires i < 4
    ensures ClipTriangleToBin(FoldedCell().Triangle(i), BelowThree())
         == if i == 0 then None else Some(CellFold().Rings()[i - 1])
  {
    hide Interpolate, Clip, Area, ClipTriangleToBin, SanitizeRing;
    var t := FoldedCell().Triangle(i);
    if i == 0 {
      MissedBinIsEmpty(t, BelowThree());
    } else {
      var ring, c := CellFold().Rings()[i - 1], CellFold().c;
      FoldAreas();
      if i == 1 {
        MeetsAt(2.0, 1.0, 3.0, 1.0, 3.0, 1.0, 3.0, 0.0);
        MeetsAt(1.0, 3.0, 1.0, 1.5, 1.5, 3.0, 3.0, 1.0);
        OneCornerBelow(t, 1, BelowThree(), ring[0], ring[2]);
      } else if i == 2 {
        MeetsAt(1.5, 1.5, 3.0, 1.0, 3.0, 1.0, 3.0, 0.0);
        MeetsAt(2.0, 1.0, 2.0, 1.5, 1.5, 3.0, 3.0, 1.0);
        ClipThree(t[0], t[1], t[2], 3.0, UpperExclusive);
        assert Points(Clip(t, 3.0, UpperExclusive)) == ring + [c];
        assert Simple(ring);
        SanitizeClosed(ring);
        FragmentOf(t, BelowThree(), ring);
      } else {
        MeetsAt(1.5, 1.5, 3.0, 2.0, 1.0, 2.0, 3.0, 0.0);
        MeetsAt(2.0, 1.0, 2.0, 1.0, 1.0, 6.0, 3.0, 0.25);
        OneCornerBelow(t, 0, BelowThree(), ring[0], ring[2]);
      }
    }
  }

  lemma SanitizeClosed(ring: seq<Point2>)
    requires Simple(ring)
    ensures SanitizeRing(ring + [ring[0]]) == ring
  {
    hide DropRepeats;
    var n := |ring|;
    assert forall i :: 0 <= i < n ==> (ring + [ring[0]])[i] != (ring + [ring[0]])[i + 1];
    DropNone(ring + [ring[0]]);
  }

  /** Where the cell folds over itself, an edge can occur three times and merging drops a
      band that has area. */
  lemma FoldedCellLosesRing()
    ensures RingsArea(CellFragments(FoldedCell(), BelowThree(), 4)) == -0.0625
    ensures Merged(CellFragments(FoldedCell(), BelowThree(), 4)) == []
    ensures !NoOddRepeats(FragmentEdges(CellFragments(FoldedCell(), BelowThree(), 4)))
  {
    hide ClipTriangleToBin, Area, Merged, NoOddRepeats, FragmentEdges;
    var s, bin, f := FoldedCell(), BelowThree(), CellFold();
    FoldFragment(0);
    FoldFragment(1);
    FoldFragment(2);
    FoldFragment(3);
    ThreeFragments(s, bin, f.Rings());
    FoldAreas();
    FoldCleared(f);
  }

  lemma ThreeFragments(s: CellSample, bin: LevelBin, rings: seq<seq<Point2>>)
    requires s.Valid() && |rings| == 3 && ClipTriangleToBin(s.Triangle(0), bin).None?
    requires forall i :: 1 <= i < 4 ==> ClipTriangleToBin(s.Triangle(i), bin) == Some(rings[i - 1])
    ensures CellFragments(s, bin, 4) == rings && RingsArea(rings) == Area(rings[0]) + Area(rings[1]) + Area(rings[2])
  {
    hide ClipTriangleToBin, Area, RingsArea;
    assert CellFragments(s, bin, 1) == [];
    assert CellFragments(s, bin, 2) == [rings[0]];
    assert CellFragments(s, bin, 3) == [rings[0], rings[1]];
    assert CellFragments(s, bin, 4) == [rings[0], rings[1], rings[2]] == rings;
    ThreeRingsArea(rings[0], rings[1], rings[2]);
  }

  lemma ThreeRingsArea(a: seq<Point2>, b: seq<Point2>, c: seq<Point2>)
    ensures RingsArea([a, b, c]) == Area(a) + Area(b) + Area(c)
  {
    hide Area, RingsArea;
    SoleRing(a);
    RingsAreaAppend([a], b);
    RingsAreaAppend([a, b], c);
    assert [a] + [b] == [a, b] && [a, b] + [c] == [a, b, c];
  }
}
