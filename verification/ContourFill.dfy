/** One grid cell of a filled contour: four triangles around the cell centre, the
    bin prefilter, and the shortcut for a cell that lies in a single bin. */
module ContourFill {
  import opened Basics
  import opened ContourGeometry
  import opened ContourClip
  import opened ContourLevels
  import opened ContourBands

  /** Corners counter-clockwise from the south-west, and the centre. */
  datatype CellSample = CellSample(corners: seq<SamplePoint>, center: SamplePoint) {
    predicate Valid() { |corners| == 4 }

    function Triangle(k: nat): (t: seq<SamplePoint>)
      requires Valid() && k < 4
      ensures |t| == 3
    {
      [corners[k], corners[(k + 1) % 4], center]
    }

    predicate AllValuesInBin(bin: LevelBin)
      requires Valid()
    {
      bin.Contains(center.value) && forall k :: 0 <= k < 4 ==> bin.Contains(corners[k].value)
    }

    function SingleBin(b: LevelBins): Option<LevelBin>
      requires Valid()
    {
      var i := BinIndex(b, center.value);
      if i.Some? && i.value < |b.bins| && AllValuesInBin(b.bins[i.value]) then Some(b.bins[i.value]) else None
    }

    function Outline(): seq<Point2> { Points(corners) }
  }

  method ValueRange(s: CellSample) returns (lo: real, hi: real)
    requires s.Valid()
    ensures lo <= s.center.value <= hi
    ensures forall k :: 0 <= k < 4 ==> lo <= s.corners[k].value <= hi
    ensures lo == s.center.value || exists k :: 0 <= k < 4 && lo == s.corners[k].value
    ensures hi == s.center.value || exists k :: 0 <= k < 4 && hi == s.corners[k].value
  {
    lo, hi := s.center.value, s.center.value;
    for i := 0 to 4
      invariant lo <= s.center.value <= hi
      invariant forall k :: 0 <= k < i ==> lo <= s.corners[k].value <= hi
      invariant lo == s.center.value || exists k :: 0 <= k < i && lo == s.corners[k].value
      invariant hi == s.center.value || exists k :: 0 <= k < i && hi == s.corners[k].value
    {
      var v := s.corners[i].value;
      if v < lo { lo := v; }
      if v > hi { hi := v; }
    }
  }

  predicate BinOverlapsRange(bin: LevelBin, lo: real, hi: real) {
    var lowerOk := match bin.lower
      case NegInfinity => true
      case Finite(bound) => hi >= bound
      case PosInfinity => false;
    var upperOk := match bin.upper
      case NegInfinity => false
      case Finite(bound) => if bin.upperInclusive then lo <= bound else lo < bound
      case PosInfinity => true;
    lowerOk && upperOk
  }

  ghost predicate AllInside(vs: seq<SamplePoint>, b: real, rule: ClipRule) {
    forall i :: 0 <= i < |vs| ==> IsInside(vs[i].value, b, rule)
  }

  ghost predicate NoneInside(vs: seq<SamplePoint>, b: real, rule: ClipRule) {
    forall i :: 0 <= i < |vs| ==> !IsInside(vs[i].value, b, rule)
  }

  lemma {:induction false} ClipFromAll(p: SamplePoint, vs: seq<SamplePoint>, b: real, rule: ClipRule)
    requires IsInside(p.value, b, rule) && AllInside(vs, b, rule)
    ensures ClipFrom(p, vs, b, rule) == vs
    decreases |vs|
  {
    if vs != [] {
      ClipFromAll(vs[0], vs[1..], b, rule);
      assert vs == [vs[0]] + vs[1..];
    }
  }

  lemma {:induction false} ClipFromNone(p: SamplePoint, vs: seq<SamplePoint>, b: real, rule: ClipRule)
    requires !IsInside(p.value, b, rule) && NoneInside(vs, b, rule)
    ensures ClipFrom(p, vs, b, rule) == []
    decreases |vs|
  {
    if vs != [] { ClipFromNone(vs[0], vs[1..], b, rule); }
  }

  lemma ClipAll(vs: seq<SamplePoint>, b: real, rule: ClipRule)
    requires AllInside(vs, b, rule)
    ensures Clip(vs, b, rule) == vs
  {
    if vs != [] { ClipFromAll(vs[|vs| - 1], vs, b, rule); }
  }

  lemma ClipNone(vs: seq<SamplePoint>, b: real, rule: ClipRule)
    requires NoneInside(vs, b, rule)
    ensures Clip(vs, b, rule) == []
  {
    if vs != [] { ClipFromNone(vs[|vs| - 1], vs, b, rule); }
  }

  /** A triangle wholly in a bin keeps its signed area there. */
  lemma ContainedKeepsArea(t: seq<SamplePoint>, bin: LevelBin)
    requires |t| == 3 && forall i :: 0 <= i < 3 ==> bin.Contains(t[i].value)
    ensures FragmentArea(ClipTriangleToBin(t, bin)) == Area(Points(t))
  {
    hide ClipTriangleToBin, FragmentArea, Clip, SampleLoop;
    var rule := if bin.upperInclusive then UpperInclusive else UpperExclusive;
    assert bin.Contains(t[0].value);
    if bin.lower.Finite? { ClipAll(t, bin.lower.bound, LowerInclusive); }
    if bin.upper.Finite? { ClipAll(t, bin.upper.bound, rule); }
    FragmentAreaIsLoop(t, bin);
    LoopOfPoints(t);
    AreaIsHalfLoop(Points(t));
  }

  lemma {:induction false} ClipFromBelow(p: SamplePoint, vs: seq<SamplePoint>, a: real, b: real, rule: ClipRule)
    requires rule != LowerInclusive && !IsInside(a, b, rule)
    ensures NoneInside(ClipFrom(p, vs, a, LowerInclusive), b, rule)
    decreases |vs|
  {
    if vs != [] {
      ClipFromBelow(vs[0], vs[1..], a, b, rule);
      assert NoneInside(Piece(p, vs[0], a, LowerInclusive), b, rule);
    }
  }

  /** A triangle whose values all miss one bound of the bin leaves no fragment. */
  lemma MissedBinIsEmpty(t: seq<SamplePoint>, bin: LevelBin)
    requires |t| == 3
    requires || (bin.lower.Finite? && forall i :: 0 <= i < 3 ==> t[i].value < bin.lower.bound)
             || (bin.upper.Finite? && !bin.upperInclusive && forall i :: 0 <= i < 3 ==> t[i].value >= bin.upper.bound)
             || (bin.upper.Finite? && bin.upperInclusive && forall i :: 0 <= i < 3 ==> t[i].value > bin.upper.bound)
    ensures ClipTriangleToBin(t, bin).None?
  {
    hide Clip;
    var rule := if bin.upperInclusive then UpperInclusive else UpperExclusive;
    var low := if bin.lower.Finite? then Clip(t, bin.lower.bound, LowerInclusive) else t;
    if bin.lower.Finite? && (forall i :: 0 <= i < 3 ==> t[i].value < bin.lower.bound) {
      ClipNone(t, bin.lower.bound, LowerInclusive);
    } else {
      var u := bin.upper.bound;
      if bin.lower.Finite? {
        SurvivorsStayOutside(t, bin.lower.bound, u, rule);
      }
      ClipNone(low, u, rule);
    }
  }

  /** Vertices outside an upper rule stay outside it through a lower clip. */
  lemma SurvivorsStayOutside(t: seq<SamplePoint>, a: real, b: real, rule: ClipRule)
    requires |t| == 3 && rule != LowerInclusive && NoneInside(t, b, rule)
    ensures NoneInside(Clip(t, a, LowerInclusive), b, rule)
  {
    if IsInside(a, b, rule) {
      ClipAll(t, a, LowerInclusive);
    } else {
      ClipFromBelow(t[2], t, a, b, rule);
    }
  }

  /** The prefilter keeps a bin exactly when the bin holds some value of the range. */
  lemma PrefilterExact(b: LevelBins, j: nat, lo: real, hi: real)
    requires ValidBins(b) && j < |b.bins| && lo <= hi
    ensures BinOverlapsRange(b.bins[j], lo, hi) <==> exists v :: lo <= v <= hi && b.bins[j].Contains(v)
  {
    var bin, ts := b.bins[j], b.thresholds;
    assert bin == BinAt(ts, b.extend, j);
    var v := if bin.lower.Finite? && bin.lower.bound > lo then bin.lower.bound else lo;
    if BinOverlapsRange(bin, lo, hi) {
      assert lo <= v <= hi && bin.Contains(v);
    }
  }

  /** The prefilter skips only bins that would yield nothing. */
  lemma PrefilterSkipsNothing(s: CellSample, b: LevelBins, j: nat, lo: real, hi: real, k: nat)
    requires s.Valid() && k < 4 && ValidBins(b) && j < |b.bins|
    requires lo <= s.center.value <= hi && forall c :: 0 <= c < 4 ==> lo <= s.corners[c].value <= hi
    requires !BinOverlapsRange(b.bins[j], lo, hi)
    ensures ClipTriangleToBin(s.Triangle(k), b.bins[j]).None?
  {
    assert b.bins[j] == BinAt(b.thresholds, b.extend, j);
    MissedBinIsEmpty(s.Triangle(k), b.bins[j]);
  }

  // ---- the single-bin shortcut ----

  /** What the first n triangles of a cell leave in one bin. */
  ghost function CellFragments(s: CellSample, bin: LevelBin, n: nat): seq<seq<Point2>>
    requires s.Valid() && n <= 4
  {
    if n == 0 then []
    else
      var fragment := ClipTriangleToBin(s.Triangle(n - 1), bin);
      CellFragments(s, bin, n - 1) + if fragment.Some? then [fragment.value] else []
  }

  /** Signed area of the four fragments of a cell in one bin. */
  ghost function CellBinArea(s: CellSample, bin: LevelBin, n: nat): real
    requires s.Valid() && n <= 4
  {
    if n == 0 then 0.0
    else CellBinArea(s, bin, n - 1) + FragmentArea(ClipTriangleToBin(s.Triangle(n - 1), bin))
  }

  ghost function FanArea(s: CellSample, n: nat): real
    requires s.Valid() && n <= 4
  {
    if n == 0 then 0.0 else FanArea(s, n - 1) + Area(Points(s.Triangle(n - 1)))
  }

  lemma TriangleArea(p: Point2, q: Point2, r: Point2)
    ensures Area([p, q, r]) == (Cross(r, p) + Cross(p, q) + Cross(q, r)) * 0.5
  {
    var vs := [p, q, r];
    assert vs[1..] == [q, r] && [q, r][1..] == [r] && [r][1..] == [];
    assert PathSum(q, [r]) == Cross(q, r);
    assert PathSum(p, [q, r]) == Cross(p, q) + PathSum(q, [r]);
  }

  lemma QuadArea(p: Point2, q: Point2, r: Point2, s: Point2)
    ensures Area([p, q, r, s]) == (Cross(s, p) + Cross(p, q) + Cross(q, r) + Cross(r, s)) * 0.5
  {
    var vs := [p, q, r, s];
    assert vs[1..] == [q, r, s] && [q, r, s][1..] == [r, s] && [r, s][1..] == [s] && [s][1..] == [];
    assert PathSum(r, [s]) == Cross(r, s);
    assert PathSum(q, [r, s]) == Cross(q, r) + PathSum(r, [s]);
    assert PathSum(p, [q, r, s]) == Cross(p, q) + PathSum(q, [r, s]);
  }

  lemma CrossReversed(p: Point2, q: Point2)
    ensures Cross(p, q) == -Cross(q, p)
  {
  }

  lemma FanOfPoints(p: Point2, q: Point2, r: Point2, w: Point2, m: Point2)
    ensures Area([p, q, m]) + Area([q, r, m]) + Area([r, w, m]) + Area([w, p, m]) == Area([p, q, r, w])
  {
    hide Area, Cross;
    QuadArea(p, q, r, w);
    TriangleArea(p, q, m);
    TriangleArea(q, r, m);
    TriangleArea(r, w, m);
    TriangleArea(w, p, m);
    CrossReversed(p, m);
    CrossReversed(q, m);
    CrossReversed(r, m);
    CrossReversed(w, m);
  }

  lemma FanUnfolded(s: CellSample)
    requires s.Valid()
    ensures FanArea(s, 4) == Area(Points(s.Triangle(0))) + Area(Points(s.Triangle(1)))
                           + Area(Points(s.Triangle(2))) + Area(Points(s.Triangle(3)))
  {
    hide Area;
    assert FanArea(s, 1) == FanArea(s, 0) + Area(Points(s.Triangle(0)));
    assert FanArea(s, 2) == FanArea(s, 1) + Area(Points(s.Triangle(1)));
    assert FanArea(s, 3) == FanArea(s, 2) + Area(Points(s.Triangle(2)));
  }

  /** Wherever the centre lies, the four triangles add up to the cell outline. */
  lemma FanIsOutline(s: CellSample)
    requires s.Valid()
    ensures FanArea(s, 4) == Area(s.Outline())
  {
    hide Area, FanArea;
    var p, q, r, w, m := s.corners[0].point, s.corners[1].point, s.corners[2].point, s.corners[3].point, s.center.point;
    FanUnfolded(s);
    assert s.Outline() == [p, q, r, w];
    assert Points(s.Triangle(0)) == [p, q, m] && Points(s.Triangle(1)) == [q, r, m];
    assert Points(s.Triangle(2)) == [r, w, m] && Points(s.Triangle(3)) == [w, p, m];
    FanOfPoints(p, q, r, w, m);
  }

  lemma {:induction false} ContainedCellArea(s: CellSample, bin: LevelBin, n: nat)
    requires s.Valid() && n <= 4 && s.AllValuesInBin(bin)
    ensures CellBinArea(s, bin, n) == FanArea(s, n)
  {
    if n > 0 {
      ContainedCellArea(s, bin, n - 1);
      ContainedKeepsArea(s.Triangle(n - 1), bin);
    }
  }

  /** A value of one bin misses a bound of every other bin. */
  lemma OtherBinMissed(b: LevelBins, i: nat, j: nat, t: seq<SamplePoint>)
    requires ValidBins(b) && i < |b.bins| && j < |b.bins| && i != j && |t| == 3
    requires forall k :: 0 <= k < 3 ==> b.bins[i].Contains(t[k].value)
    ensures ClipTriangleToBin(t, b.bins[j]).None?
  {
    hide ClipTriangleToBin;
    var ts, offset := b.thresholds, if b.extend.IncludesBelow() then 1 else 0;
    var bi, bj := b.bins[i], b.bins[j];
    assert bi == BinAt(ts, b.extend, i) && bj == BinAt(ts, b.extend, j);
    var lesser, greater := if i < j then i else j, if i < j then j else i;
    var upper := if lesser < offset then 0 else lesser - offset + 1;
    var lower := if greater - offset < |ts| then greater - offset else |ts| - 1;
    assert ts[upper] <= ts[lower];
    MissedBinIsEmpty(t, bj);
  }

  /** The shortcut gives the same bin and the same signed area as clipping the four
      triangles, and clipping would leave nothing in any other bin. */
  lemma FastPathAgrees(s: CellSample, b: LevelBins)
    requires s.Valid() && ValidBins(b) && s.SingleBin(b).Some?
    ensures var bin := s.SingleBin(b).value;
            bin.index < |b.bins| && b.bins[bin.index] == bin && CellBinArea(s, bin, 4) == Area(s.Outline())
    ensures forall j, k :: 0 <= j < |b.bins| && j != s.SingleBin(b).value.index && 0 <= k < 4 ==>
              ClipTriangleToBin(s.Triangle(k), b.bins[j]).None?
  {
    hide ClipTriangleToBin;
    var i := BinIndex(b, s.center.value).value;
    var bin := b.bins[i];
    assert bin == BinAt(b.thresholds, b.extend, i) && bin.index == i;
    ContainedCellArea(s, bin, 4);
    FanIsOutline(s);
    forall j, k | 0 <= j < |b.bins| && j != i && 0 <= k < 4
      ensures ClipTriangleToBin(s.Triangle(k), b.bins[j]).None?
    {
      OtherBinMissed(b, i, j, s.Triangle(k));
    }
  }

  ghost function CellTotal(s: CellSample, b: LevelBins, n: nat): real
    requires s.Valid() && n <= 4
  {
    if n == 0 then 0.0 else CellTotal(s, b, n - 1) + BandTotal(s.Triangle(n - 1), b.bins, |b.bins|)
  }

  lemma {:induction false} CellTotalIsFan(s: CellSample, b: LevelBins, n: nat)
    requires s.Valid() && n <= 4 && ValidBins(b) && b.extend.Both?
    ensures CellTotal(s, b, n) == FanArea(s, n)
  {
    if n > 0 {
      CellTotalIsFan(s, b, n - 1);
      BandsConserveArea(s.Triangle(n - 1), b);
    }
  }

  /** Over all four triangles and all bins, a cell's fragments conserve its area. */
  lemma CellConservesArea(s: CellSample, b: LevelBins)
    requires s.Valid() && ValidBins(b) && b.extend.Both?
    ensures CellTotal(s, b, 4) == Area(s.Outline())
  {
    CellTotalIsFan(s, b, 4);
    FanIsOutline(s);
  }
}
