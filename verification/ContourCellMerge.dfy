/** One triangle in one bin: its fragment is the ring of the band, or nothing if the band
    only touches the triangle. */
module ContourCellMerge {
  import opened Basics
  import opened ContourGeometry
  import opened ContourClip
  import opened ContourLevels
  import opened ContourBands
  import opened ContourFill
  import opened ContourWheel
  import opened ContourBandShape
  import opened ContourBandRing
  import opened ContourBandKept
  import opened ContourBandArea

  /** The span stands for the bin as far as value v can tell: an infinite bound may be any
      number beyond v. */
  predicate Fits(s: Span, bin: LevelBin, v: real) {
    && (bin.lower == LevelBound.Finite(s.lo) || (bin.lower.NegInfinity? && s.lo < v))
    && ((bin.upper == LevelBound.Finite(s.hi) && s.closed == bin.upperInclusive) || (bin.upper.PosInfinity? && v < s.hi))
  }

  ghost predicate AllFit(s: Span, bin: LevelBin, t: seq<SamplePoint>) {
    s.lo < s.hi && forall i :: 0 <= i < |t| ==> Fits(s, bin, t[i].value)
  }

  lemma {:induction false} ClipFromInside(p: SamplePoint, vs: seq<SamplePoint>, a: real, b: real, rule: ClipRule)
    requires IsInside(a, b, rule) && AllInside(vs, b, rule)
    ensures AllInside(ClipFrom(p, vs, a, LowerInclusive), b, rule)
    decreases |vs|
  {
    if vs != [] { ClipFromInside(vs[0], vs[1..], a, b, rule); }
  }

  /** The fragment's polygon is the triangle in the span. */
  lemma ClippedIsBand(t: seq<SamplePoint>, bin: LevelBin, s: Span)
    requires |t| == 3 && AllFit(s, bin, t)
    ensures var poly := BandFrom(t[2], t, s); ClippedPolygon(t, bin) == if |poly| < 3 then [] else poly
  {
    hide BandFrom, ClipFrom, BandPiece;
    BandClip(t, s);
    assert forall i :: 0 <= i < 3 ==> Fits(s, bin, t[i].value);
    var low := Clip(t, s.lo, LowerInclusive);
    TriangleClipSize(t, s.lo, LowerInclusive);
    if bin.lower.NegInfinity? { ClipAll(t, s.lo, LowerInclusive); }
    if bin.upper.PosInfinity? {
      ClipFromInside(t[2], t, s.lo, s.hi, s.Rule());
      ClipAll(low, s.hi, s.Rule());
    }
    assert low == [] ==> Clip(low, s.hi, s.Rule()) == [];
  }

  function WedgeOf(t: seq<SamplePoint>): Wedge
    requires |t| == 3
  {
    Wedge(t[2].point, t[0].point, t[1].point, t[2].value, t[0].value, t[1].value)
  }

  lemma TurnedLoop(ring: seq<Point2>, core: seq<Point2>)
    requires Turned(ring, core)
    ensures LoopSum(ring) == LoopSum(core) && |ring| == |core|
    ensures forall v :: v in ring <==> v in core
  {
    if ring != core {
      var n := |core| - 1;
      LoopSumFromFirst(ring);
      assert ring[1..] + [ring[0]] == core;
      assert core == core[..n] + [core[n]];
    }
  }

  /** A kept fragment is the sanitized ring. */
  lemma KeptFragment(t: seq<SamplePoint>, bin: LevelBin, s: Span)
    requires |t| == 3 && AllFit(s, bin, t) && WedgeOf(t).Proper(s) && WedgeOf(t).Kept(s)
    ensures ClipTriangleToBin(t, bin) == Some(SanitizeRing(WedgeOf(t).Raw(s)))
    ensures Turned(SanitizeRing(WedgeOf(t).Raw(s)), WedgeOf(t).CoreRing(s)) && |WedgeOf(t).CoreRing(s)| >= 3
  {
    hide ClippedPolygon, BandFrom, SanitizeRing, LoopSum, Perimeters, Positions, Core, Filled, Det, Fits, Turned;
    var w := WedgeOf(t);
    var raw, core := w.Raw(s), w.CoreRing(s);
    var ring := SanitizeRing(raw);
    ClippedIsBand(t, bin, s);
    BandSpots(t, s);
    SanitizedIsCore(w, s);
    KeptHasArea(w, s);
    TurnedLoop(ring, core);
    AreaIsHalfLoop(ring);
    SanitizeShrinks(raw);
  }

  lemma DroppedFragment(t: seq<SamplePoint>, bin: LevelBin, s: Span)
    requires |t| == 3 && AllFit(s, bin, t) && WedgeOf(t).Proper(s) && !WedgeOf(t).Kept(s)
    ensures ClipTriangleToBin(t, bin) == None
  {
    hide ClippedPolygon, BandFrom, Perimeters, Positions, Filled, Det, Fits, SanitizeRing;
    ClippedIsBand(t, bin, s);
    BandSpots(t, s);
    TouchedIsShort(WedgeOf(t), s);
  }
}
