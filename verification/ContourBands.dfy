/** Filled bands: clipping the triangles of a cell to value bins. */
module ContourBands {
  import opened Basics
  import opened ContourGeometry
  import opened ContourClip
  import opened ContourNesting
  import opened ContourLevels

  function Points(vs: seq<SamplePoint>): (ps: seq<Point2>)
    ensures |ps| == |vs| && forall i :: 0 <= i < |vs| ==> ps[i] == vs[i].point
  {
    seq(|vs|, i requires 0 <= i < |vs| => vs[i].point)
  }

  /** The polygon left of a triangle in a bin, before sanitizing. */
  function ClippedPolygon(triangle: seq<SamplePoint>, bin: LevelBin): seq<SamplePoint> {
    var low := if bin.lower.Finite? then Clip(triangle, bin.lower.bound, LowerInclusive) else triangle;
    if |low| < 3 then []
    else
      var rule := if bin.upperInclusive then UpperInclusive else UpperExclusive;
      var both := if bin.upper.Finite? then Clip(low, bin.upper.bound, rule) else low;
      if |both| < 3 then [] else both
  }

  function ClipTriangleToBin(triangle: seq<SamplePoint>, bin: LevelBin): Option<seq<Point2>> {
    var polygon := ClippedPolygon(triangle, bin);
    if polygon == [] then None
    else
      var vertices := SanitizeRing(Points(polygon));
      if |vertices| < 3 || Abs(Area(vertices)) <= GEOMETRY_EPSILON then None else Some(vertices)
  }

  function FragmentArea(fragment: Option<seq<Point2>>): real {
    if fragment.None? then 0.0 else Area(fragment.value)
  }

  lemma {:induction false} PathSumOfPoints(pen: Point2, vs: seq<SamplePoint>)
    ensures PathSum(pen, Points(vs)) == SampleSum(pen, vs)
    decreases |vs|
  {
    if vs != [] {
      assert Points(vs)[1..] == Points(vs[1..]);
      PathSumOfPoints(vs[0].point, vs[1..]);
    }
  }

  lemma LoopOfPoints(vs: seq<SamplePoint>)
    ensures LoopSum(Points(vs)) == SampleLoop(vs)
  {
    if vs != [] { PathSumOfPoints(vs[|vs| - 1].point, vs); }
  }

  /** Sanitizing and dropping empty fragments lose no area. */
  lemma FragmentAreaIsLoop(triangle: seq<SamplePoint>, bin: LevelBin)
    ensures FragmentArea(ClipTriangleToBin(triangle, bin)) == SampleLoop(ClippedPolygon(triangle, bin)) * 0.5
  {
    var polygon := ClippedPolygon(triangle, bin);
    LoopOfPoints(polygon);
    SanitizeKeepsLoop(Points(polygon));
    AreaIsHalfLoop(SanitizeRing(Points(polygon)));
  }

  // ---- triangles ----

  lemma TriangleEdges(t: seq<SamplePoint>, b: real, rule: ClipRule)
    requires |t| == 3
    ensures Clip(t, b, rule) == Piece(t[2], t[0], b, rule) + Piece(t[0], t[1], b, rule) + Piece(t[1], t[2], b, rule)
  {
    var r := t[1..];
    assert r[0] == t[1] && r[1..] == [t[2]] && [t[2]][1..] == [];
    assert ClipFrom(t[1], r[1..], b, rule) == Piece(t[1], t[2], b, rule);
    assert ClipFrom(t[0], r, b, rule) == Piece(t[0], t[1], b, rule) + ClipFrom(t[1], r[1..], b, rule);
  }

  /** A clipped triangle is empty or keeps at least three vertices. */
  lemma TriangleClipSize(t: seq<SamplePoint>, b: real, rule: ClipRule)
    requires |t| == 3
    ensures Clip(t, b, rule) == [] || |Clip(t, b, rule)| >= 3
  {
    TriangleEdges(t, b, rule);
  }

  /** A level cuts a triangle in one chord. */
  lemma TriangleChord(t: seq<SamplePoint>, b: real) returns (x: Point2, e: Point2)
    requires |t| == 3
    ensures OneChord(t[2], t, b, x, e)
  {
    var i, j, k := Interpolate(t[2], t[0], b).point, Interpolate(t[0], t[1], b).point, Interpolate(t[1], t[2], b).point;
    x := if High(t[2], b) && !High(t[0], b) then i else if High(t[0], b) && !High(t[1], b) then j else k;
    e := if !High(t[2], b) && High(t[0], b) then i else if !High(t[0], b) && High(t[1], b) then j else k;
    var r := t[1..];
    assert r[0] == t[1] && r[1..] == [t[2]] && [t[2]][1..] == [];
    assert OneChord(t[1], r[1..], b, x, e);
    assert OneChord(t[0], r, b, x, e);
  }

  // ---- one triangle over all bins ----

  /** Loop sum of the part of t at or above level b. */
  ghost function Above(t: seq<SamplePoint>, b: real): real { SampleLoop(Clip(t, b, LowerInclusive)) }

  lemma BelowFirst(t: seq<SamplePoint>, b: real)
    requires |t| == 3
    ensures SampleLoop(Clip(t, b, UpperExclusive)) == SampleLoop(t) - Above(t, b)
  {
    var x, e := TriangleChord(t, b);
    ClipConservesArea(t, b, x, e);
  }

  lemma BetweenLevels(t: seq<SamplePoint>, a: real, b: real)
    requires |t| == 3 && a < b
    ensures SampleLoop(Clip(Clip(t, a, LowerInclusive), b, UpperExclusive)) == Above(t, a) - Above(t, b)
  {
    var low := Clip(t, a, LowerInclusive);
    ClipNests(t, a, b);
    if low != [] {
      var x, e := TriangleChord(t, b);
      ChordSurvives(t, a, b, x, e);
      ClipConservesArea(low, b, x, e);
    }
  }

  lemma ShortLoop(vs: seq<SamplePoint>)
    requires |vs| < 3
    ensures SampleLoop(vs) == 0.0
  {
    LoopOfPoints(vs);
    AreaIsHalfLoop(Points(vs));
  }

  /** Area of t that lies below the lower bound of bin i. */
  ghost function BelowBin(t: seq<SamplePoint>, b: LevelBins, i: nat): real {
    if i == 0 then 0.0
    else if i <= |b.thresholds| then SampleLoop(t) - Above(t, b.thresholds[i - 1])
    else SampleLoop(t)
  }

  /** What bin i receives is the difference of the areas below its two bounds. */
  lemma BinShare(t: seq<SamplePoint>, b: LevelBins, i: nat)
    requires |t| == 3 && ValidBins(b) && b.extend.Both? && i < |b.bins|
    ensures FragmentArea(ClipTriangleToBin(t, b.bins[i])) == (BelowBin(t, b, i + 1) - BelowBin(t, b, i)) * 0.5
  {
    hide ClipTriangleToBin, FragmentArea, Clip, SampleLoop;
    var ts, bin := b.thresholds, b.bins[i];
    assert bin == BinAt(ts, b.extend, i);
    FragmentAreaIsLoop(t, bin);
    ShortLoop([]);
    var low := if i == 0 then t else Clip(t, ts[i - 1], LowerInclusive);
    if i > 0 { TriangleClipSize(t, ts[i - 1], LowerInclusive); }
    if i < |ts| { ShortClip(low, ts[i]); }
    if i == 0 {
      BelowFirst(t, ts[0]);
    } else if i < |ts| {
      BetweenLevels(t, ts[i - 1], ts[i]);
    }
  }

  /** Treating a degenerate clip as empty loses no area. */
  lemma ShortClip(low: seq<SamplePoint>, b: real)
    ensures |Clip(low, b, UpperExclusive)| < 3 ==> SampleLoop(Clip(low, b, UpperExclusive)) == 0.0
    ensures low == [] ==> SampleLoop(Clip(low, b, UpperExclusive)) == 0.0
  {
    if |Clip(low, b, UpperExclusive)| < 3 { ShortLoop(Clip(low, b, UpperExclusive)); }
  }

  /** Signed area of all fragments of t in the first n bins. */
  ghost function BandTotal(t: seq<SamplePoint>, bins: seq<LevelBin>, n: nat): real
    requires n <= |bins|
  {
    if n == 0 then 0.0
    else BandTotal(t, bins, n - 1) + FragmentArea(ClipTriangleToBin(t, bins[n - 1]))
  }

  lemma {:induction false} BandTotalIsBelow(t: seq<SamplePoint>, b: LevelBins, n: nat)
    requires |t| == 3 && ValidBins(b) && b.extend.Both? && n <= |b.bins|
    ensures BandTotal(t, b.bins, n) == BelowBin(t, b, n) * 0.5
  {
    hide ClipTriangleToBin, FragmentArea, SampleLoop, Above;
    if n > 0 {
      BandTotalIsBelow(t, b, n - 1);
      BinShare(t, b, n - 1);
    }
  }

  /** The fragments of a valued triangle over all bins conserve its signed area. */
  lemma BandsConserveArea(t: seq<SamplePoint>, b: LevelBins)
    requires |t| == 3 && ValidBins(b) && b.extend.Both?
    ensures BandTotal(t, b.bins, |b.bins|) == Area(Points(t))
  {
    BandTotalIsBelow(t, b, |b.bins|);
    LoopOfPoints(t);
  }
}
