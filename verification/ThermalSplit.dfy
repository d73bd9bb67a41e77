/** Inserting an interpolated level leaves the thermal layers unchanged. */
module ThermalSplit {
  import opened ThermalLayers

  /** A linear wet-bulb run. */
  datatype Line = Line(z0: real, t0: real, slope: real)

  function On(l: Line, z: real): real { l.t0 + l.slope * (z - l.z0) }

  ghost predicate Follows(l: Line, a: Level) { a.wetBulb == On(l, a.height) }

  /** mid lies on the straight run between lower and upper. */
  ghost predicate Interpolated(lower: Level, mid: Level, upper: Level) {
    && lower.height < mid.height < upper.height
    && (mid.wetBulb - lower.wetBulb) * (upper.height - lower.height)
    == (upper.wetBulb - lower.wetBulb) * (mid.height - lower.height)
  }

  lemma LineThrough(lower: Level, mid: Level, upper: Level) returns (l: Line)
    requires Interpolated(lower, mid, upper)
    ensures Follows(l, lower) && Follows(l, mid) && Follows(l, upper)
  {
    var d, rise := upper.height - lower.height, upper.wetBulb - lower.wetBulb;
    var s := rise / d;
    l := Line(lower.height, lower.wetBulb, s);
    assert s * d == rise;
    var x, y := mid.wetBulb - lower.wetBulb, s * (mid.height - lower.height);
    assert y * d == (s * d) * (mid.height - lower.height) == x * d;
    assert (x - y) * d == 0.0;
  }

  /** Energies along one line add up. */
  lemma EnergyAdds(l: Line, a: real, b: real, c: real)
    ensures LayerEnergy(a, b, On(l, a), On(l, b)) + LayerEnergy(b, c, On(l, b), On(l, c))
         == LayerEnergy(a, c, On(l, a), On(l, c))
  {
    var t, s, x, y := On(l, a), l.slope, b - a, c - b;
    assert On(l, b) == t + s * x;
    assert On(l, c) == t + s * (x + y);
    TrapezoidsAdd(t, s, x, y);
    var k := GRAVITY_MS2 / FREEZING_K * 0.5;
    assert LayerEnergy(a, b, t, On(l, b)) == k * ((t + (t + s * x)) * x);
    assert LayerEnergy(b, c, On(l, b), On(l, c)) == k * (((t + s * x) + (t + s * (x + y))) * y);
    assert LayerEnergy(a, c, t, On(l, c)) == k * ((t + (t + s * (x + y))) * (x + y));
  }

  lemma TrapezoidsAdd(t: real, s: real, x: real, y: real)
    ensures (t + (t + s * x)) * x + ((t + s * x) + (t + s * (x + y))) * y == (t + (t + s * (x + y))) * (x + y)
  {
    assert (t + (t + s * x)) * x == 2.0 * t * x + s * x * x;
    assert ((t + s * x) + (t + s * (x + y))) * y == 2.0 * t * y + 2.0 * (s * x * y) + s * y * y;
    assert (t + (t + s * (x + y))) * (x + y) == 2.0 * t * (x + y) + s * (x + y) * (x + y);
    assert s * (x + y) * (x + y) == s * x * x + 2.0 * (s * x * y) + s * y * y;
  }

  lemma ZeroUnique(l: Line, z: real, w: real)
    requires l.slope != 0.0 && On(l, z) == 0.0 && On(l, w) == 0.0
    ensures z == w
  {
    assert l.slope * (z - l.z0) == l.slope * (w - l.z0);
    assert l.slope * (z - w) == 0.0;
  }

  /** Between two heights the line stays between its two values. */
  lemma Between(l: Line, a: real, b: real, c: real)
    requires a < b < c
    ensures On(l, a) <= On(l, b) <= On(l, c) || On(l, c) <= On(l, b) <= On(l, a)
  {
    assert On(l, b) - On(l, a) == l.slope * (b - a);
    assert On(l, c) - On(l, b) == l.slope * (c - b);
  }

  /** The crossing height is the zero of the line. */
  lemma CrossingIsZero(l: Line, lower: Level, upper: Level)
    requires Follows(l, lower) && Follows(l, upper) && lower.height < upper.height
    requires Crosses(lower.wetBulb, upper.wetBulb)
    ensures lower.wetBulb != upper.wetBulb && l.slope != 0.0 && On(l, CrossingHeight(lower, upper)) == 0.0
  {
    CrossesMeans(lower.wetBulb, upper.wetBulb);
    var t0, t1, d := lower.wetBulb, upper.wetBulb, upper.height - lower.height;
    var f, zc := CrossingShare(t0, t1), CrossingHeight(lower, upper);
    assert t1 - t0 == l.slope * d;
    assert f * (t1 - t0) == -t0;
    assert zc - lower.height == f * d;
    assert On(l, zc) - t0 == l.slope * (zc - lower.height);
    assert l.slope * (f * d) == f * (l.slope * d) == -t0;
  }

  // ---- merging ----

  ghost predicate SameSide(a: real, b: real) { (a >= 0.0 && b >= 0.0) || (a <= 0.0 && b <= 0.0) }

  /** Two energies of one sign have the effect of their sum. */
  lemma AppendMerges(layers: seq<ThermalLayer>, a: real, b: real)
    requires SameSide(a, b)
    ensures Append(Append(layers, a), b) == Append(layers, a + b)
  {
  }

  lemma EnergySide(z0: real, z1: real, t0: real, t1: real)
    requires z0 <= z1
    ensures t0 >= 0.0 && t1 >= 0.0 ==> LayerEnergy(z0, z1, t0, t1) >= 0.0
    ensures t0 <= 0.0 && t1 <= 0.0 ==> LayerEnergy(z0, z1, t0, t1) <= 0.0
  {
    if z0 < z1 {
      EnergySign(z0, z1, t0, t1);
    }
  }

  /** Where the zero lies relative to mid, and that both parts find the same one. */
  lemma CrossingOfParts(l: Line, lower: Level, mid: Level, upper: Level)
    requires Follows(l, lower) && Follows(l, mid) && Follows(l, upper) && lower.height < mid.height < upper.height
    requires Crosses(lower.wetBulb, upper.wetBulb)
    ensures lower.wetBulb != upper.wetBulb
    ensures var zc := CrossingHeight(lower, upper);
            && On(l, zc) == 0.0
            && (mid.wetBulb == 0.0 ==> zc == mid.height)
            && (Crosses(mid.wetBulb, upper.wetBulb) ==>
                  mid.wetBulb != upper.wetBulb && CrossingHeight(mid, upper) == zc && mid.height <= zc <= upper.height)
            && (Crosses(lower.wetBulb, mid.wetBulb) ==>
                  lower.wetBulb != mid.wetBulb && CrossingHeight(lower, mid) == zc && lower.height <= zc <= mid.height)
            && lower.height <= zc <= upper.height
  {
    hide On, CrossingHeight, Crosses;
    CrossingIsZero(l, lower, upper);
    var zc := CrossingHeight(lower, upper);
    CrossingInside(lower, upper);
    if mid.wetBulb == 0.0 { ZeroUnique(l, zc, mid.height); }
    if Crosses(mid.wetBulb, upper.wetBulb) {
      CrossingIsZero(l, mid, upper);
      ZeroUnique(l, zc, CrossingHeight(mid, upper));
      CrossingInside(mid, upper);
    }
    if Crosses(lower.wetBulb, mid.wetBulb) {
      CrossingIsZero(l, lower, mid);
      ZeroUnique(l, zc, CrossingHeight(lower, mid));
      CrossingInside(lower, mid);
    }
  }

  lemma CrossingInside(lower: Level, upper: Level)
    requires lower.height < upper.height && Crosses(lower.wetBulb, upper.wetBulb)
    ensures lower.wetBulb != upper.wetBulb && lower.height <= CrossingHeight(lower, upper) <= upper.height
  {
    hide CrossingShare;
    ShareFacts(lower.wetBulb, upper.wetBulb);
    UnitStep(lower.height, upper.height, CrossingShare(lower.wetBulb, upper.wetBulb));
  }

  lemma UnitProduct(f: real, d: real) returns (p: real)
    requires 0.0 < f < 1.0 && 0.0 < d
    ensures p == f * d && 0.0 < p < d
  {
    p := PositiveProduct(f, d);
    var q := PositiveProduct(1.0 - f, d);
    assert p + q == d;
  }

  lemma UnitStep(z0: real, z1: real, f: real)
    requires z0 < z1 && 0.0 < f < 1.0
    ensures z0 <= Along(z0, z1, f) <= z1
  {
    hide Along;
    var p := UnitProduct(f, z1 - z0);
    AlongStep(z0, z1, f, p);
  }

  lemma AlongStep(z0: real, z1: real, f: real, p: real)
    requires p == f * (z1 - z0)
    ensures Along(z0, z1, f) == z0 + p
  {
  }

  /** Splitting one segment at an interpolated level adds the same layers. */
  lemma SegmentSplits(layers: seq<ThermalLayer>, lower: Level, mid: Level, upper: Level)
    requires Interpolated(lower, mid, upper)
    ensures AppendAll(AppendAll(layers, SegmentEnergies(lower, mid)), SegmentEnergies(mid, upper))
         == AppendAll(layers, SegmentEnergies(lower, upper))
  {
    var l := LineThrough(lower, mid, upper);
    CrossesMeans(lower.wetBulb, upper.wetBulb);
    Between(l, lower.height, mid.height, upper.height);
    if Crosses(lower.wetBulb, upper.wetBulb) {
      CrossedSplits(layers, l, lower, mid, upper);
    } else {
      UncrossedSplits(layers, l, lower, mid, upper);
    }
  }

  lemma UncrossedSplits(layers: seq<ThermalLayer>, l: Line, lower: Level, mid: Level, upper: Level)
    requires Follows(l, lower) && Follows(l, mid) && Follows(l, upper) && lower.height < mid.height < upper.height
    requires !Crosses(lower.wetBulb, upper.wetBulb)
    ensures AppendAll(AppendAll(layers, SegmentEnergies(lower, mid)), SegmentEnergies(mid, upper))
         == AppendAll(layers, SegmentEnergies(lower, upper))
  {
    hide On, LayerEnergy, Crosses, Append, AppendAll;
    var t0, tm, t1 := lower.wetBulb, mid.wetBulb, upper.wetBulb;
    Between(l, lower.height, mid.height, upper.height);
    CrossesMeans(t0, t1);
    CrossesMeans(t0, tm);
    CrossesMeans(tm, t1);
    var a, b := LayerEnergy(lower.height, mid.height, t0, tm), LayerEnergy(mid.height, upper.height, tm, t1);
    var e := LayerEnergy(lower.height, upper.height, t0, t1);
    EnergyAdds(l, lower.height, mid.height, upper.height);
    EnergySide(lower.height, mid.height, t0, tm);
    EnergySide(mid.height, upper.height, tm, t1);
    AppendMerges(layers, a, b);
    AppendAllShort(layers, a, b);
    AppendAllShort(Append(layers, a), b, b);
    AppendAllShort(layers, e, e);
  }

  lemma CrossedSplits(layers: seq<ThermalLayer>, l: Line, lower: Level, mid: Level, upper: Level)
    requires Follows(l, lower) && Follows(l, mid) && Follows(l, upper) && lower.height < mid.height < upper.height
    requires Crosses(lower.wetBulb, upper.wetBulb)
    ensures AppendAll(AppendAll(layers, SegmentEnergies(lower, mid)), SegmentEnergies(mid, upper))
         == AppendAll(layers, SegmentEnergies(lower, upper))
  {
    hide On, LayerEnergy, Crosses, CrossingHeight, Append, AppendAll;
    var t0, tm, t1 := lower.wetBulb, mid.wetBulb, upper.wetBulb;
    CrossesMeans(t0, t1);
    CrossesMeans(t0, tm);
    CrossesMeans(tm, t1);
    CrossingOfParts(l, lower, mid, upper);
    var zc := CrossingHeight(lower, upper);
    var first, second := LayerEnergy(lower.height, zc, t0, 0.0), LayerEnergy(zc, upper.height, 0.0, t1);
    AppendAllShort(layers, first, second);
    var below := Append(layers, first);
    if tm == 0.0 {
      AppendAllShort(below, second, second);
    } else if Crosses(tm, t1) {
      var a, b := LayerEnergy(lower.height, mid.height, t0, tm), LayerEnergy(mid.height, zc, tm, 0.0);
      EnergyAdds(l, lower.height, mid.height, zc);
      EnergySide(lower.height, mid.height, t0, tm);
      EnergySide(mid.height, zc, tm, 0.0);
      AppendMerges(layers, a, b);
      AppendAllShort(layers, a, a);
      AppendAllShort(Append(layers, a), b, second);
    } else {
      var a, b := LayerEnergy(zc, mid.height, 0.0, tm), LayerEnergy(mid.height, upper.height, tm, t1);
      EnergyAdds(l, zc, mid.height, upper.height);
      EnergySide(zc, mid.height, 0.0, tm);
      EnergySide(mid.height, upper.height, tm, t1);
      AppendMerges(below, a, b);
      AppendAllShort(layers, first, a);
      AppendAllShort(Append(below, a), b, b);
    }
  }

  // ---- whole profiles ----

  /** The profile with one more level after position i. */
  function Inserted(levels: seq<Level>, i: nat, mid: Level): seq<Level>
    requires i + 1 < |levels|
  {
    levels[..i + 1] + [mid] + levels[i + 1..]
  }

  lemma {:induction false} InsertKeepsLayersFrom(stack: seq<ThermalLayer>, levels: seq<Level>, i: nat, mid: Level)
    requires i + 1 < |levels| && Interpolated(levels[i], mid, levels[i + 1])
    ensures LayersFrom(stack, Inserted(levels, i, mid)) == LayersFrom(stack, levels)
    decreases |levels|
  {
    hide SegmentEnergies, AppendAll, Interpolated;
    var more := Inserted(levels, i, mid);
    if i == 0 {
      assert more[0] == levels[0] && more[1] == mid && more[2] == levels[1];
      assert more[1..][1..] == levels[1..];
      SegmentSplits(stack, levels[0], mid, levels[1]);
      var half := AppendAll(stack, SegmentEnergies(levels[0], mid));
      assert LayersFrom(stack, more) == LayersFrom(half, more[1..]);
      assert LayersFrom(half, more[1..]) == LayersFrom(AppendAll(half, SegmentEnergies(mid, levels[1])), more[1..][1..]);
    } else {
      assert more[0] == levels[0] && more[1] == levels[1];
      assert more[1..] == Inserted(levels[1..], i - 1, mid);
      InsertKeepsLayersFrom(AppendAll(stack, SegmentEnergies(levels[0], levels[1])), levels[1..], i - 1, mid);
    }
  }

  /** Inserting any linearly interpolated level leaves the layer list unchanged. */
  lemma InsertKeepsLayers(levels: seq<Level>, i: nat, mid: Level)
    requires i + 1 < |levels| && Interpolated(levels[i], mid, levels[i + 1])
    ensures Layers(Inserted(levels, i, mid)) == Layers(levels)
  {
    InsertKeepsLayersFrom([], levels, i, mid);
  }
}
