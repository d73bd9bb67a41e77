/** Filled bands of a whole grid: per cell the outline if all values lie in one bin,
    otherwise the merged fragments of every bin that overlaps the cell's values. */
module ContourExtract {
  import opened Basics
  import opened ContourGeometry
  import opened ContourLevels
  import opened ContourBands
  import opened ContourFill
  import opened ContourMerge
  import opened ContourMergeArea
  import opened ContourWheel
  import opened ContourCellArea

  datatype BandPolygon = BandPolygon(bin: nat, cell: nat, exterior: seq<Point2>)

  /** Signed area of the polygons of all bins, or of bin j alone. */
  ghost function BandsArea(bands: seq<BandPolygon>, j: Option<nat>): real {
    if bands == [] then 0.0
    else
      var last := bands[|bands| - 1];
      BandsArea(bands[..|bands| - 1], j) + if j == None || j == Some(last.bin) then Area(last.exterior) else 0.0
  }

  lemma BandsAreaAppend(bands: seq<BandPolygon>, band: BandPolygon, j: Option<nat>)
    ensures BandsArea(bands + [band], j)
         == BandsArea(bands, j) + if j == None || j == Some(band.bin) then Area(band.exterior) else 0.0
  {
    assert (bands + [band])[..|bands|] == bands;
  }

  lemma {:induction false} BandsAreaConcat(a: seq<BandPolygon>, b: seq<BandPolygon>, j: Option<nat>)
    ensures BandsArea(a + b, j) == BandsArea(a, j) + BandsArea(b, j)
  {
    hide Area;
    if b == [] {
      assert a + b == a;
    } else {
      var init, last := b[..|b| - 1], b[|b| - 1];
      BandsAreaConcat(a, init, j);
      assert a + b == a + init + [last] && b == init + [last];
      BandsAreaAppend(a + init, last, j);
      BandsAreaAppend(init, last, j);
    }
  }

  ghost function Tagged(bin: nat, cell: nat, rings: seq<seq<Point2>>): seq<BandPolygon> {
    if rings == [] then [] else Tagged(bin, cell, rings[..|rings| - 1]) + [BandPolygon(bin, cell, rings[|rings| - 1])]
  }

  lemma {:induction false} TaggedArea(bin: nat, cell: nat, rings: seq<seq<Point2>>, j: Option<nat>)
    ensures BandsArea(Tagged(bin, cell, rings), j) == if j == None || j == Some(bin) then RingsArea(rings) else 0.0
  {
    hide Area;
    if rings != [] {
      var n := |rings| - 1;
      TaggedArea(bin, cell, rings[..n], j);
      BandsAreaAppend(Tagged(bin, cell, rings[..n]), BandPolygon(bin, cell, rings[n]), j);
    }
  }

  // ---- one cell ----

  /** The clipped triangles of a cell in one bin. */
  method BandFragmentsForCell(s: CellSample, bin: LevelBin) returns (fragments: seq<seq<Point2>>)
    requires s.Valid()
    ensures fragments == CellFragments(s, bin, 4)
  {
    hide ClipTriangleToBin;
    fragments := [];
    for k := 0 to 4
      invariant fragments == CellFragments(s, bin, k)
    {
      var fragment := ClipTriangleToBin(s.Triangle(k), bin);
      if fragment.Some? {
        fragments := fragments + [fragment.value];
      }
    }
  }

  /** The cell outline, unless it degenerates to no area. */
  method FullCellPolygon(s: CellSample) returns (ring: Option<seq<Point2>>)
    requires s.Valid()
    ensures ring == OutlinePolygon(s)
  {
    hide PathSum;
    var vertices := Sanitize(s.Outline());
    if |vertices| < 3 {
      return None;
    }
    var area := SignedArea(vertices);
    return if Abs(area) > GEOMETRY_EPSILON then Some(vertices) else None;
  }

  ghost function OutlinePolygon(s: CellSample): (ring: Option<seq<Point2>>)
    requires s.Valid()
    ensures FragmentArea(ring) == Area(s.Outline())
  {
    var vertices := SanitizeRing(s.Outline());
    SanitizedArea(s.Outline());
    if |vertices| >= 3 && Abs(Area(vertices)) > GEOMETRY_EPSILON then Some(vertices) else None
  }

  /** The merged fragments of the first n bins. */
  ghost function BinPolygons(s: CellSample, cell: nat, b: LevelBins, n: nat): seq<BandPolygon>
    requires s.Valid() && n <= |b.bins|
  {
    if n == 0 then []
    else BinPolygons(s, cell, b, n - 1) + Tagged(n - 1, cell, Merged(CellFragments(s, b.bins[n - 1], 4)))
  }

  /** What a cell is drawn as. */
  ghost function CellPolygons(s: CellSample, cell: nat, b: LevelBins): seq<BandPolygon>
    requires s.Valid()
  {
    if s.SingleBin(b).Some? then
      var ring := OutlinePolygon(s);
      if ring.Some? then [BandPolygon(s.SingleBin(b).value.index, cell, ring.value)] else []
    else BinPolygons(s, cell, b, |b.bins|)
  }

  lemma {:induction false} NothingToMerge(s: CellSample, bin: LevelBin, n: nat)
    requires s.Valid() && n <= 4 && forall k :: 0 <= k < 4 ==> ClipTriangleToBin(s.Triangle(k), bin).None?
    ensures CellFragments(s, bin, n) == [] && Merged([]) == []
  {
    hide ClipTriangleToBin;
    if n > 0 { NothingToMerge(s, bin, n - 1); }
  }

  /** The slow path: every bin that overlaps the cell's range of values, and so every bin
      that has fragments. */
  method FillByBins(s: CellSample, cell: nat, b: LevelBins) returns (bands: seq<BandPolygon>)
    requires s.Valid() && ValidBins(b)
    ensures bands == BinPolygons(s, cell, b, |b.bins|)
  {
    hide ClipTriangleToBin, ValidBins, BinOverlapsRange, CellFragments, Merged;
    var lo, hi := ValueRange(s);
    bands := [];
    for n := 0 to |b.bins|
      invariant bands == BinPolygons(s, cell, b, n)
    {
      if BinOverlapsRange(b.bins[n], lo, hi) {
        var fragments := BandFragmentsForCell(s, b.bins[n]);
        var polygons := MergeFragments(fragments);
        bands := Push(bands, n, cell, polygons);
      } else {
        forall k | 0 <= k < 4 ensures ClipTriangleToBin(s.Triangle(k), b.bins[n]).None? {
          PrefilterSkipsNothing(s, b, n, lo, hi, k);
        }
        NothingToMerge(s, b.bins[n], 4);
      }
    }
  }

  method Push(bands: seq<BandPolygon>, bin: nat, cell: nat, polygons: seq<seq<Point2>>) returns (more: seq<BandPolygon>)
    ensures more == bands + Tagged(bin, cell, polygons)
  {
    more := bands;
    for i := 0 to |polygons|
      invariant more == bands + Tagged(bin, cell, polygons[..i])
    {
      assert polygons[..i + 1][..i] == polygons[..i];
      more := more + [BandPolygon(bin, cell, polygons[i])];
    }
    assert polygons[..|polygons|] == polygons;
  }

  method FillCell(s: CellSample, cell: nat, b: LevelBins) returns (bands: seq<BandPolygon>)
    requires s.Valid() && ValidBins(b)
    ensures bands == CellPolygons(s, cell, b)
  {
    hide OutlinePolygon, BinPolygons, ValidBins;
    var single := s.SingleBin(b);
    if single.Some? {
      var ring := FullCellPolygon(s);
      bands := if ring.Some? then [BandPolygon(single.value.index, cell, ring.value)] else [];
    } else {
      bands := FillByBins(s, cell, b);
    }
  }

  // ---- areas of one cell ----

  /** The centre sees the corners in order, or the shortcut applies. */
  ghost predicate Orderly(s: CellSample, b: LevelBins)
    requires s.Valid()
  {
    Around(s.center.point, s.Outline()) || s.SingleBin(b).Some?
  }

  predicate NoKnots(s: CellSample, b: LevelBins)
    requires s.Valid()
  {
    forall j :: 0 <= j < |b.bins| ==> !Knotted(s, b.bins[j])
  }

  lemma BinIsProper(b: LevelBins, j: nat)
    requires ValidBins(b) && j < |b.bins|
    ensures ProperBin(b.bins[j])
  {
    assert b.bins[j] == BinAt(b.thresholds, b.extend, j);
  }

  /** A cell has a knot in one bin at most. */
  lemma OneKnot(s: CellSample, b: LevelBins, i: nat, j: nat)
    requires s.Valid() && ValidBins(b) && i < |b.bins| && j < |b.bins| && Knotted(s, b.bins[i]) && Knotted(s, b.bins[j])
    ensures i == j
  {
    var ts, offset := b.thresholds, if b.extend.IncludesBelow() then 1 else 0;
    assert b.bins[i] == BinAt(ts, b.extend, i) && b.bins[j] == BinAt(ts, b.extend, j);
    var v, m := s.corners[3].value, s.center.value;
    var x, y := BoundIndex(b, i, v, m), BoundIndex(b, j, v, m);
    assert ts[x] == v && ts[y] == v;
  }

  /** The threshold a knotted bin is knotted at. */
  ghost function BoundIndex(b: LevelBins, i: nat, v: real, m: real): (x: nat)
    requires ValidBins(b) && i < |b.bins| && if m < v then b.bins[i].lower == Finite(v) else b.bins[i].upper == Finite(v)
    ensures x < |b.thresholds| && b.thresholds[x] == v
    ensures var offset := if b.extend.IncludesBelow() then 1 else 0; x == (if m < v then i - offset else i - offset + 1)
  {
    assert b.bins[i] == BinAt(b.thresholds, b.extend, i);
    var offset := if b.extend.IncludesBelow() then 1 else 0;
    if m < v then i - offset else i - offset + 1
  }

  /** A cell whose values share a bin has none. */
  lemma SingleBinNoKnots(s: CellSample, b: LevelBins)
    requires s.Valid() && ValidBins(b) && s.SingleBin(b).Some?
    ensures NoKnots(s, b)
  {
    var i := BinIndex(b, s.center.value).value;
    forall j | 0 <= j < |b.bins| ensures !Knotted(s, b.bins[j]) {
      if Knotted(s, b.bins[j]) {
        NoThresholdBetween(b, i, j, s.center.value, s.corners[0].value, s.corners[3].value);
        assert false;
      }
    }
  }

  /** No bound of a bin lies strictly between two values that share a bin. */
  lemma NoThresholdBetween(b: LevelBins, i: nat, j: nat, m: real, v: real, t: real)
    requires ValidBins(b) && i < |b.bins| && j < |b.bins| && b.bins[i].Contains(m) && b.bins[i].Contains(v)
    requires b.bins[j].lower == Finite(t) || b.bins[j].upper == Finite(t)
    ensures !(m < t < v) && !(v < t < m)
  {
    var ts, offset := b.thresholds, if b.extend.IncludesBelow() then 1 else 0;
    assert b.bins[i] == BinAt(ts, b.extend, i) && b.bins[j] == BinAt(ts, b.extend, j);
    var x := if b.bins[j].lower == Finite(t) then j - offset else j - offset + 1;
    assert 0 <= x < |ts| && ts[x] == t;
    var lo, hi := i - offset, i - offset + 1;
    if lo >= 0 && x <= lo { assert ts[x] <= ts[lo]; }
    if hi < |ts| && hi <= x { assert ts[hi] <= ts[x]; }
  }

  ghost function AllBinsArea(s: CellSample, bins: seq<LevelBin>, n: nat, t: nat): real
    requires s.Valid() && n <= |bins| && t <= 4
  {
    if n == 0 then 0.0 else AllBinsArea(s, bins, n - 1, t) + CellBinArea(s, bins[n - 1], t)
  }

  /** Adding up bin by bin is adding up triangle by triangle. */
  lemma {:induction false} BinsThenTriangles(s: CellSample, bins: seq<LevelBin>, n: nat, t: nat)
    requires s.Valid() && n <= |bins| && t <= 4
    ensures AllBinsArea(s, bins, n, t)
         == if t == 0 then 0.0 else AllBinsArea(s, bins, n, t - 1) + BandTotal(s.Triangle(t - 1), bins, n)
  {
    hide ClipTriangleToBin;
    if n > 0 { BinsThenTriangles(s, bins, n - 1, t); }
  }

  lemma {:induction false} AllBinsAreTotal(s: CellSample, b: LevelBins, t: nat)
    requires s.Valid() && t <= 4
    ensures AllBinsArea(s, b.bins, |b.bins|, t) == CellTotal(s, b, t)
  {
    hide BandTotal;
    BinsThenTriangles(s, b.bins, |b.bins|, t);
    if t > 0 { AllBinsAreTotal(s, b, t - 1); }
  }

  lemma {:induction false} EmptyCellArea(s: CellSample, bin: LevelBin, n: nat)
    requires s.Valid() && n <= 4 && forall k :: 0 <= k < 4 ==> ClipTriangleToBin(s.Triangle(k), bin).None?
    ensures CellBinArea(s, bin, n) == 0.0
  {
    hide ClipTriangleToBin;
    if n > 0 { EmptyCellArea(s, bin, n - 1); }
  }

  /** In each of the first n bins the polygons have the area of what merging leaves. */
  lemma {:induction false} BinPolygonsArea(s: CellSample, cell: nat, b: LevelBins, n: nat, j: nat)
    requires s.Valid() && n <= |b.bins| && j < |b.bins|
    ensures BandsArea(BinPolygons(s, cell, b, n), Some(j))
         == if j < n then RingsArea(Merged(CellFragments(s, b.bins[j], 4))) else 0.0
  {
    hide Merged, CellFragments, BandsArea, Tagged;
    if n == 0 {
      NoBands(Some(j));
    } else {
      var rings := Merged(CellFragments(s, b.bins[n - 1], 4));
      BinPolygonsArea(s, cell, b, n - 1, j);
      BandsAreaConcat(BinPolygons(s, cell, b, n - 1), Tagged(n - 1, cell, rings), Some(j));
      TaggedArea(n - 1, cell, rings, Some(j));
    }
  }

  lemma NoBands(j: Option<nat>)
    ensures BandsArea([], j) == 0.0
  {
  }

  /** By how much merging changes the area of a bin: not at all exactly if there is no knot. */
  ghost function Gain(s: CellSample, b: LevelBins, j: nat): real
    requires s.Valid() && j < |b.bins|
  {
    RingsArea(Merged(CellFragments(s, b.bins[j], 4))) - CellBinArea(s, b.bins[j], 4)
  }

  lemma GainExact(s: CellSample, b: LevelBins, j: nat)
    requires s.Valid() && ValidBins(b) && Around(s.center.point, s.Outline()) && j < |b.bins|
    ensures Gain(s, b, j) == 0.0 <==> !Knotted(s, b.bins[j])
  {
    hide Merged, CellFragments, CellBinArea, ValidBins, ProperBin, RingsArea, Around, Knotted;
    BinIsProper(b, j);
    MergeKeepsCellArea(s, b.bins[j]);
  }

  /** If only bin k can be knotted, the total of the first n bins is off by its gain. */
  lemma {:induction false} BinPolygonsTotal(s: CellSample, cell: nat, b: LevelBins, n: nat, k: nat)
    requires s.Valid() && ValidBins(b) && Around(s.center.point, s.Outline()) && n <= |b.bins|
    requires forall j :: 0 <= j < n && j != k ==> !Knotted(s, b.bins[j])
    ensures BandsArea(BinPolygons(s, cell, b, n), None)
         == AllBinsArea(s, b.bins, n, 4) + if k < n then Gain(s, b, k) else 0.0
  {
    hide Merged, CellFragments, BandsArea, Tagged, CellBinArea, ValidBins, Knotted, Around;
    if n == 0 {
      NoBands(None);
    } else {
      var rings := Merged(CellFragments(s, b.bins[n - 1], 4));
      BinPolygonsTotal(s, cell, b, n - 1, k);
      BandsAreaConcat(BinPolygons(s, cell, b, n - 1), Tagged(n - 1, cell, rings), None);
      TaggedArea(n - 1, cell, rings, None);
      GainExact(s, b, n - 1);
    }
  }

  /** The shortcut gives every bin the area clipping would, in any cell. */
  lemma ShortcutArea(s: CellSample, cell: nat, b: LevelBins, j: nat)
    requires s.Valid() && ValidBins(b) && s.SingleBin(b).Some? && j < |b.bins|
    ensures BandsArea(CellPolygons(s, cell, b), Some(j)) == CellBinArea(s, b.bins[j], 4)
    ensures BandsArea(CellPolygons(s, cell, b), None) == Area(s.Outline())
  {
    hide ClipTriangleToBin, Area, ValidBins, CellBinArea, BandsArea, OutlinePolygon;
    FastPathAgrees(s, b);
    var i, ring := s.SingleBin(b).value.index, OutlinePolygon(s);
    if i != j { EmptyCellArea(s, b.bins[j], 4); }
    NoBands(Some(j));
    NoBands(None);
    if ring.Some? {
      var band := BandPolygon(i, cell, ring.value);
      BandsAreaAppend([], band, Some(j));
      BandsAreaAppend([], band, None);
      assert [] + [band] == [band];
    }
  }

  /** By the shortcut or by bins, a cell's polygons have in each bin the area of the clipped
      triangles exactly if no bin is knotted; and then, and only then, with bins open at
      both ends they fill the cell. */
  lemma CellPolygonsArea(s: CellSample, cell: nat, b: LevelBins)
    requires s.Valid() && ValidBins(b) && Orderly(s, b)
    ensures (forall j :: 0 <= j < |b.bins| ==> BandsArea(CellPolygons(s, cell, b), Some(j)) == CellBinArea(s, b.bins[j], 4))
            <==> NoKnots(s, b)
    ensures b.extend.Both? ==> (BandsArea(CellPolygons(s, cell, b), None) == Area(s.Outline()) <==> NoKnots(s, b))
  {
    assert |b.bins| > 0;
    hide Area, ValidBins, CellBinArea, BandsArea, OutlinePolygon, Knotted, Merged, BinPolygons, Around;
    if s.SingleBin(b).Some? {
      SingleBinNoKnots(s, b);
      forall j | 0 <= j < |b.bins|
        ensures BandsArea(CellPolygons(s, cell, b), Some(j)) == CellBinArea(s, b.bins[j], 4)
      {
        ShortcutArea(s, cell, b, j);
      }
      ShortcutArea(s, cell, b, 0);
    } else {
      BinsExact(s, cell, b);
      TotalExact(s, cell, b);
    }
  }

  lemma BinsExact(s: CellSample, cell: nat, b: LevelBins)
    requires s.Valid() && ValidBins(b) && Around(s.center.point, s.Outline())
    ensures (forall j :: 0 <= j < |b.bins| ==>
              BandsArea(BinPolygons(s, cell, b, |b.bins|), Some(j)) == CellBinArea(s, b.bins[j], 4))
            <==> NoKnots(s, b)
  {
    hide ValidBins, CellBinArea, BandsArea, Knotted, Merged, BinPolygons, Around, RingsArea;
    var bands := BinPolygons(s, cell, b, |b.bins|);
    forall j | 0 <= j < |b.bins| ensures BandsArea(bands, Some(j)) == CellBinArea(s, b.bins[j], 4) <==> !Knotted(s, b.bins[j]) {
      BinPolygonsArea(s, cell, b, |b.bins|, j);
      GainExact(s, b, j);
    }
  }

  lemma TotalExact(s: CellSample, cell: nat, b: LevelBins)
    requires s.Valid() && ValidBins(b) && Around(s.center.point, s.Outline())
    ensures b.extend.Both? ==> (BandsArea(BinPolygons(s, cell, b, |b.bins|), None) == Area(s.Outline()) <==> NoKnots(s, b))
  {
    hide Area, ValidBins, CellBinArea, BandsArea, Knotted, Merged, BinPolygons, Around, Gain;
    if b.extend.Both? {
      AllBinsAreTotal(s, b, 4);
      CellConservesArea(s, b);
      if k :| 0 <= k < |b.bins| && Knotted(s, b.bins[k]) {
        forall j | 0 <= j < |b.bins| && j != k ensures !Knotted(s, b.bins[j]) {
          if Knotted(s, b.bins[j]) { OneKnot(s, b, j, k); }
        }
        BinPolygonsTotal(s, cell, b, |b.bins|, k);
        GainExact(s, b, k);
      } else {
        BinPolygonsTotal(s, cell, b, |b.bins|, |b.bins|);
      }
    }
  }

  // ---- the whole grid ----

  ghost predicate AllValid(cells: seq<Option<CellSample>>) {
    forall i :: 0 <= i < |cells| && cells[i].Some? ==> cells[i].value.Valid()
  }

  ghost function GridPolygons(cells: seq<Option<CellSample>>, b: LevelBins): seq<BandPolygon>
    requires AllValid(cells)
  {
    if cells == [] then []
    else
      var n := |cells| - 1;
      GridPolygons(cells[..n], b) + if cells[n].Some? then CellPolygons(cells[n].value, n, b) else []
  }

  /** All polygons of a grid, cell by cell, with cells that miss a value skipped. */
  method ExtractFilledBands(cells: seq<Option<CellSample>>, b: LevelBins) returns (bands: seq<BandPolygon>)
    requires ValidBins(b) && AllValid(cells)
    ensures bands == GridPolygons(cells, b)
  {
    hide ValidBins, CellPolygons;
    bands := [];
    for i := 0 to |cells|
      invariant bands == GridPolygons(cells[..i], b)
    {
      assert cells[..i + 1][..i] == cells[..i];
      if cells[i].Some? {
        var more := FillCell(cells[i].value, i, b);
        bands := bands + more;
      }
    }
    assert cells[..|cells|] == cells;
  }

  ghost function OutlinesArea(cells: seq<Option<CellSample>>): real
    requires AllValid(cells)
  {
    if cells == [] then 0.0
    else
      var last := cells[|cells| - 1];
      OutlinesArea(cells[..|cells| - 1]) + if last.Some? then Area(last.value.Outline()) else 0.0
  }

  ghost function BinArea(cells: seq<Option<CellSample>>, bin: LevelBin): real
    requires AllValid(cells)
  {
    if cells == [] then 0.0
    else
      var last := cells[|cells| - 1];
      BinArea(cells[..|cells| - 1], bin) + if last.Some? then CellBinArea(last.value, bin, 4) else 0.0
  }

  /** On a grid whose finite cells are orderly and without knots each bin gets exactly the
      area its clipped triangles have; with bins open at both ends the polygons fill the
      finite cells and nothing else. */
  lemma {:induction false} ExtractionConserves(cells: seq<Option<CellSample>>, b: LevelBins)
    requires ValidBins(b) && AllValid(cells)
    requires forall i :: 0 <= i < |cells| && cells[i].Some? ==> Orderly(cells[i].value, b) && NoKnots(cells[i].value, b)
    ensures forall j :: 0 <= j < |b.bins| ==> BandsArea(GridPolygons(cells, b), Some(j)) == BinArea(cells, b.bins[j])
    ensures b.extend.Both? ==> BandsArea(GridPolygons(cells, b), None) == OutlinesArea(cells)
  {
    hide Area, ValidBins, CellBinArea, BandsArea, Orderly, NoKnots, CellPolygons;
    if cells == [] {
      forall j: Option<nat> ensures BandsArea([], j) == 0.0 { NoBands(j); }
    } else {
      var n := |cells| - 1;
      ExtractionConserves(cells[..n], b);
      if cells[n].Some? {
        var front, more := GridPolygons(cells[..n], b), CellPolygons(cells[n].value, n, b);
        CellPolygonsArea(cells[n].value, n, b);
        forall j: Option<nat> ensures BandsArea(front + more, j) == BandsArea(front, j) + BandsArea(more, j) {
          BandsAreaConcat(front, more, j);
        }
      } else {
        assert GridPolygons(cells, b) == GridPolygons(cells[..n], b);
      }
    }
  }
}
