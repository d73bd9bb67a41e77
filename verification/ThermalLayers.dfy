/** Warm and cold wet-bulb energy layers of a vertical profile. */
module ThermalLayers {
  import opened Basics

  const GRAVITY_MS2: real := 9.80665
  const FREEZING_K: real := 273.15

  datatype Level = Level(height: real, wetBulb: real)

  datatype ThermalLayer = ThermalLayer(warm: bool, energy: real)

  /** Energy of a layer in which the wet bulb runs linearly from t0 to t1. */
  function LayerEnergy(z0: real, z1: real, t0: real, t1: real): real {
    GRAVITY_MS2 / FREEZING_K * 0.5 * (t0 + t1) * (z1 - z0)
  }

  /** Add signed energy to the stack: merge with a last layer of the same sign. */
  function Append(layers: seq<ThermalLayer>, e: real): seq<ThermalLayer> {
    if e == 0.0 then layers
    else
      var warm, n := e > 0.0, |layers|;
      if n > 0 && layers[n - 1].warm == warm
      then layers[n - 1 := ThermalLayer(warm, layers[n - 1].energy + Abs(e))]
      else layers + [ThermalLayer(warm, Abs(e))]
  }

  function AppendAll(layers: seq<ThermalLayer>, es: seq<real>): seq<ThermalLayer>
    decreases |es|
  {
    if es == [] then layers else AppendAll(Append(layers, es[0]), es[1..])
  }

  lemma AppendAllShort(layers: seq<ThermalLayer>, a: real, b: real)
    ensures AppendAll(layers, []) == layers && AppendAll(layers, [a]) == Append(layers, a)
    ensures AppendAll(layers, [a, b]) == Append(Append(layers, a), b)
  {
    hide Append;
    assert [a][1..] == [] && [a, b][1..] == [b] && [b][1..] == [];
    assert AppendAll(Append(layers, a), [b]) == AppendAll(Append(Append(layers, a), b), [b][1..]);
  }

  /** Share of a segment from t0 to t1 that lies below the zero crossing. */
  function CrossingShare(t0: real, t1: real): real
    requires t0 != t1
  {
    -t0 / (t1 - t0)
  }

  function Along(z0: real, z1: real, f: real): real { z0 + f * (z1 - z0) }

  /** Height at which the wet bulb of a segment passes zero. */
  function CrossingHeight(lower: Level, upper: Level): real
    requires lower.wetBulb != upper.wetBulb
  {
    Along(lower.height, upper.height, CrossingShare(lower.wetBulb, upper.wetBulb))
  }

  /** The wet bulb changes sign within the segment. */
  predicate Crosses(t0: real, t1: real) { t0 * t1 < 0.0 }

  lemma CrossesMeans(x: real, y: real)
    ensures Crosses(x, y) <==> (x < 0.0 < y) || (y < 0.0 < x)
  {
    if x > 0.0 && y > 0.0 { assert x * y > 0.0; }
    if x < 0.0 && y < 0.0 { assert (-x) * (-y) > 0.0; }
  }

  /** The signed energies of one segment, split at the zero crossing. */
  function SegmentEnergies(lower: Level, upper: Level): seq<real> {
    if upper.height - lower.height <= 0.0 then []
    else if Crosses(lower.wetBulb, upper.wetBulb) then
      CrossesMeans(lower.wetBulb, upper.wetBulb);
      var zc := CrossingHeight(lower, upper);
      [LayerEnergy(lower.height, zc, lower.wetBulb, 0.0), LayerEnergy(zc, upper.height, 0.0, upper.wetBulb)]
    else [LayerEnergy(lower.height, upper.height, lower.wetBulb, upper.wetBulb)]
  }

  /** The layers of the profile, built segment by segment onto a given stack. */
  function LayersFrom(stack: seq<ThermalLayer>, levels: seq<Level>): seq<ThermalLayer>
    decreases |levels|
  {
    if |levels| < 2 then stack
    else LayersFrom(AppendAll(stack, SegmentEnergies(levels[0], levels[1])), levels[1..])
  }

  function Layers(levels: seq<Level>): seq<ThermalLayer> { LayersFrom([], levels) }

  // ---- shape of the stack ----

  /** Neighbouring layers differ in sign and every energy is positive. */
  ghost predicate Alternating(layers: seq<ThermalLayer>) {
    && (forall i :: 0 <= i < |layers| ==> layers[i].energy > 0.0)
    && forall i, j :: 0 <= i && j == i + 1 < |layers| ==> layers[i].warm != layers[j].warm
  }

  lemma AppendAlternates(layers: seq<ThermalLayer>, e: real)
    requires Alternating(layers)
    ensures Alternating(Append(layers, e))
  {
  }

  lemma {:induction false} AppendAllAlternates(layers: seq<ThermalLayer>, es: seq<real>)
    requires Alternating(layers)
    ensures Alternating(AppendAll(layers, es))
    decreases |es|
  {
    if es != [] {
      AppendAlternates(layers, es[0]);
      AppendAllAlternates(Append(layers, es[0]), es[1..]);
    }
  }

  lemma {:induction false} LayersFromAlternate(stack: seq<ThermalLayer>, levels: seq<Level>)
    requires Alternating(stack)
    ensures Alternating(LayersFrom(stack, levels))
    decreases |levels|
  {
    if |levels| >= 2 {
      var es := SegmentEnergies(levels[0], levels[1]);
      AppendAllAlternates(stack, es);
      LayersFromAlternate(AppendAll(stack, es), levels[1..]);
    }
  }

  // ---- totals ----

  ghost function Total(layers: seq<ThermalLayer>, warm: bool): real {
    if layers == [] then 0.0
    else
      var last := layers[|layers| - 1];
      Total(layers[..|layers| - 1], warm) + if last.warm == warm then last.energy else 0.0
  }

  /** The part of e of the given sign, as a magnitude. */
  function Part(e: real, warm: bool): real {
    if warm then if e > 0.0 then e else 0.0 else if e < 0.0 then -e else 0.0
  }

  lemma AppendTotal(layers: seq<ThermalLayer>, e: real, warm: bool)
    ensures Total(Append(layers, e), warm) == Total(layers, warm) + Part(e, warm)
  {
    var n := |layers|;
    if e != 0.0 {
      if n > 0 && layers[n - 1].warm == (e > 0.0) {
        var out := Append(layers, e);
        assert out[..n - 1] == layers[..n - 1];
      } else {
        assert Append(layers, e)[..n] == layers;
      }
    }
  }

  ghost function PartSum(es: seq<real>, warm: bool): real {
    if es == [] then 0.0 else Part(es[0], warm) + PartSum(es[1..], warm)
  }

  lemma {:induction false} AppendAllTotal(layers: seq<ThermalLayer>, es: seq<real>, warm: bool)
    ensures Total(AppendAll(layers, es), warm) == Total(layers, warm) + PartSum(es, warm)
    decreases |es|
  {
    if es != [] {
      AppendTotal(layers, es[0], warm);
      AppendAllTotal(Append(layers, es[0]), es[1..], warm);
    }
  }

  function Scale(lower: Level, upper: Level): real { GRAVITY_MS2 / FREEZING_K * 0.5 * (upper.height - lower.height) }

  /** Height-normalized area of the triangle with base value x on a segment that runs
      from x to y through zero. */
  function Triangle(x: real, y: real): real
    requires x != y
  {
    x * x / (x - y)
  }

  /** Energy of the warm (cold) part of one segment, in closed form: a trapezoid when
      the wet bulb keeps its sign, otherwise the triangle of that sign. */
  ghost function SegmentPart(lower: Level, upper: Level, warm: bool): real {
    var a, b := if warm then lower.wetBulb else -lower.wetBulb, if warm then upper.wetBulb else -upper.wetBulb;
    var scale := Scale(lower, upper);
    if a <= 0.0 && b <= 0.0 then 0.0
    else if a >= 0.0 && b >= 0.0 then scale * (a + b)
    else if a > 0.0 then scale * Triangle(a, b)
    else scale * Triangle(b, a)
  }

  /** The positive (negative) part of the piecewise-linear wet-bulb integral. */
  ghost function ProfilePart(levels: seq<Level>, warm: bool): real
    decreases |levels|
  {
    if |levels| < 2 then 0.0 else SegmentPart(levels[0], levels[1], warm) + ProfilePart(levels[1..], warm)
  }

  ghost predicate Increasing(levels: seq<Level>) {
    forall i, j :: 0 <= i && j == i + 1 < |levels| ==> levels[i].height < levels[j].height
  }

  lemma EnergySign(z0: real, z1: real, t0: real, t1: real)
    requires z0 < z1
    ensures t0 + t1 > 0.0 ==> LayerEnergy(z0, z1, t0, t1) > 0.0
    ensures t0 + t1 == 0.0 ==> LayerEnergy(z0, z1, t0, t1) == 0.0
    ensures t0 + t1 < 0.0 ==> LayerEnergy(z0, z1, t0, t1) < 0.0
  {
    var k := GRAVITY_MS2 / FREEZING_K * 0.5;
    assert k > 0.0;
    var s, d := t0 + t1, z1 - z0;
    assert LayerEnergy(z0, z1, t0, t1) == k * (s * d);
    if s > 0.0 { assert s * d > 0.0; }
    if s < 0.0 { assert s * d < 0.0; }
  }

  // ---- the zero crossing ----

  lemma DivideInto(x: real, d: real, p: real)
    requires d != 0.0 && x * d == p
    ensures x == p / d
  {
    assert p / d * d == p;
    assert (x - p / d) * d == 0.0;
  }

  lemma PositiveFactor(x: real, d: real, p: real)
    requires x * d == p && ((d > 0.0 && p > 0.0) || (d < 0.0 && p < 0.0))
    ensures x > 0.0
  {
  }

  lemma ShareFacts(t0: real, t1: real)
    requires Crosses(t0, t1)
    ensures t0 != t1 && 0.0 < CrossingShare(t0, t1) < 1.0
    ensures t0 * CrossingShare(t0, t1) == Triangle(t0, t1)
    ensures t1 * (1.0 - CrossingShare(t0, t1)) == Triangle(t1, t0)
  {
    CrossesMeans(t0, t1);
    var f, d := CrossingShare(t0, t1), t1 - t0;
    assert f * d == -t0;
    assert (1.0 - f) * d == t1;
    PositiveFactor(f, d, -t0);
    PositiveFactor(1.0 - f, d, t1);
    assert t0 * f * (t0 - t1) == t0 * -(f * d) == t0 * t0;
    DivideInto(t0 * f, t0 - t1, t0 * t0);
    assert t1 * (1.0 - f) * d == t1 * t1;
    DivideInto(t1 * (1.0 - f), d, t1 * t1);
  }

  lemma EnergyIsScaled(z0: real, z1: real, t0: real, t1: real, dz: real, w: real)
    requires z1 - z0 == w * dz
    ensures LayerEnergy(z0, z1, t0, t1) == GRAVITY_MS2 / FREEZING_K * 0.5 * dz * ((t0 + t1) * w)
  {
    var k, t := GRAVITY_MS2 / FREEZING_K * 0.5, t0 + t1;
    assert k * t * (w * dz) == k * dz * (t * w);
  }

  lemma HalfEnergies(lower: Level, upper: Level, f: real, p: real, q: real)
    requires lower.wetBulb * f == p && upper.wetBulb * (1.0 - f) == q
    requires lower.wetBulb != upper.wetBulb && f == CrossingShare(lower.wetBulb, upper.wetBulb)
    ensures var zc := CrossingHeight(lower, upper);
            && LayerEnergy(lower.height, zc, lower.wetBulb, 0.0) == Scale(lower, upper) * p
            && LayerEnergy(zc, upper.height, 0.0, upper.wetBulb) == Scale(lower, upper) * q
  {
    hide LayerEnergy, CrossingShare;
    var dz := upper.height - lower.height;
    var zc := CrossingHeight(lower, upper);
    RestOfSpan(lower.height, upper.height, f);
    EnergyIsScaled(lower.height, zc, lower.wetBulb, 0.0, dz, f);
    EnergyIsScaled(zc, upper.height, 0.0, upper.wetBulb, dz, 1.0 - f);
  }

  /** Both halves of a crossed segment in closed form. */
  lemma CrossedEnergies(lower: Level, upper: Level)
    requires lower.height < upper.height && Crosses(lower.wetBulb, upper.wetBulb)
    ensures lower.wetBulb != upper.wetBulb
    ensures var t0, t1, es := lower.wetBulb, upper.wetBulb, SegmentEnergies(lower, upper);
            && |es| == 2
            && es[0] == Scale(lower, upper) * Triangle(t0, t1)
            && es[1] == Scale(lower, upper) * Triangle(t1, t0)
  {
    hide LayerEnergy, CrossingShare, CrossingHeight, Scale, Triangle, Crosses;
    var t0, t1 := lower.wetBulb, upper.wetBulb;
    ShareFacts(t0, t1);
    HalfEnergies(lower, upper, CrossingShare(t0, t1), Triangle(t0, t1), Triangle(t1, t0));
  }

  lemma RestOfSpan(z0: real, z1: real, f: real)
    ensures z1 - (z0 + f * (z1 - z0)) == (1.0 - f) * (z1 - z0)
  {
  }

  lemma ProductSign(s: real, q: real)
    requires s > 0.0
    ensures q > 0.0 ==> s * q > 0.0
    ensures q < 0.0 ==> s * q < 0.0
  {
  }

  lemma SquareOf(x: real) returns (p: real)
    requires x != 0.0
    ensures p == x * x && p > 0.0
  {
    var y := if x < 0.0 then -x else x;
    p := PositiveProduct(y, y);
    assert x * x == y * y;
  }

  lemma PositiveProduct(x: real, y: real) returns (p: real)
    requires x > 0.0 && y > 0.0
    ensures p == x * y && p > 0.0
  {
    p := x * y;
  }

  lemma FactorSign(q: real, d: real, p: real)
    requires q * d == p && p > 0.0
    ensures d > 0.0 ==> q > 0.0
    ensures d < 0.0 ==> q < 0.0
  {
  }

  /** The triangle has the sign of its base value, and flips with it. */
  lemma TriangleFacts(x: real, y: real)
    requires (x < 0.0 < y) || (y < 0.0 < x)
    ensures x > 0.0 ==> Triangle(x, y) > 0.0
    ensures x < 0.0 ==> Triangle(x, y) < 0.0
    ensures Triangle(-x, -y) == -Triangle(x, y)
  {
    hide Triangle;
    var q, d := Triangle(x, y), x - y;
    var p := SquareOf(x);
    TriangleProduct(x, y, p, d);
    FactorSign(q, d, p);
    TriangleUnique(-x, -y, -q, p, -d);
  }

  lemma TriangleProduct(x: real, y: real, p: real, d: real)
    requires p == x * x && d == x - y && d != 0.0
    ensures Triangle(x, y) * d == p
  {
  }

  lemma TriangleUnique(x: real, y: real, q: real, p: real, d: real)
    requires p == x * x && d == x - y && d != 0.0 && q * d == p
    ensures Triangle(x, y) == q
  {
    DivideInto(q, d, p);
  }

  lemma PartSumOfTwo(a: real, b: real, warm: bool)
    ensures PartSum([a, b], warm) == Part(a, warm) + Part(b, warm)
    ensures PartSum([a], warm) == Part(a, warm)
  {
    assert [a, b][1..] == [b] && [b][1..] == [] && [a][1..] == [];
    assert PartSum([b], warm) == Part(b, warm) + PartSum([b][1..], warm);
  }

  /** Splitting at the crossing yields exactly the positive and the negative part. */
  lemma SegmentPartExact(lower: Level, upper: Level, warm: bool)
    requires lower.height < upper.height
    ensures PartSum(SegmentEnergies(lower, upper), warm) == SegmentPart(lower, upper, warm)
  {
    hide PartSum, Crosses;
    var t0, t1 := lower.wetBulb, upper.wetBulb;
    var scale := Scale(lower, upper);
    assert scale > 0.0;
    if Crosses(t0, t1) {
      CrossedPart(lower, upper, warm);
    } else {
      var e := LayerEnergy(lower.height, upper.height, t0, t1);
      PartSumOfTwo(e, 0.0, warm);
      CrossesMeans(t0, t1);
      EnergySign(lower.height, upper.height, t0, t1);
      EnergyIsScaled(lower.height, upper.height, t0, t1, upper.height - lower.height, 1.0);
      assert e == scale * (t0 + t1);
      assert scale * (-t0 + -t1) == -(scale * (t0 + t1));
    }
  }

  lemma CrossedPart(lower: Level, upper: Level, warm: bool)
    requires lower.height < upper.height && Crosses(lower.wetBulb, upper.wetBulb)
    ensures PartSum(SegmentEnergies(lower, upper), warm) == SegmentPart(lower, upper, warm)
  {
    hide PartSum, SegmentEnergies, Scale, Triangle, Crosses;
    var t0, t1 := lower.wetBulb, upper.wetBulb;
    var scale := Scale(lower, upper);
    ScalePositive(lower, upper);
    CrossesMeans(t0, t1);
    CrossedEnergies(lower, upper);
    TriangleFacts(t0, t1);
    TriangleFacts(t1, t0);
    var q0, q1 := Triangle(t0, t1), Triangle(t1, t0);
    var es := SegmentEnergies(lower, upper);
    assert es == [es[0], es[1]];
    PartSumOfTwo(es[0], es[1], warm);
    ProductSign(scale, q0);
    ProductSign(scale, q1);
    ProductSign(scale, -q0);
    ProductSign(scale, -q1);
  }

  lemma ScalePositive(lower: Level, upper: Level)
    requires lower.height < upper.height
    ensures Scale(lower, upper) > 0.0
  {
  }

  lemma {:induction false} LayersFromTotal(stack: seq<ThermalLayer>, levels: seq<Level>, warm: bool)
    requires Increasing(levels)
    ensures Total(LayersFrom(stack, levels), warm) == Total(stack, warm) + ProfilePart(levels, warm)
    decreases |levels|
  {
    if |levels| >= 2 {
      hide SegmentEnergies, SegmentPart, Total;
      var es := SegmentEnergies(levels[0], levels[1]);
      assert levels[0].height < levels[1].height;
      SegmentPartExact(levels[0], levels[1], warm);
      AppendAllTotal(stack, es, warm);
      IncreasingTail(levels);
      LayersFromTotal(AppendAll(stack, es), levels[1..], warm);
    }
  }

  lemma IncreasingTail(levels: seq<Level>)
    requires Increasing(levels) && levels != []
    ensures Increasing(levels[1..])
  {
    var tail := levels[1..];
    forall i, j | 0 <= i && j == i + 1 < |tail| ensures tail[i].height < tail[j].height {
      assert levels[i + 1].height < levels[j + 1].height;
    }
  }

  /** The layers alternate with positive energies, and their totals are exactly the
      positive and negative parts of the wet-bulb integral. */
  lemma LayersExact(levels: seq<Level>)
    requires Increasing(levels)
    ensures Alternating(Layers(levels))
    ensures forall warm :: Total(Layers(levels), warm) == ProfilePart(levels, warm)
  {
    LayersFromAlternate([], levels);
    forall warm ensures Total(Layers(levels), warm) == ProfilePart(levels, warm) {
      LayersFromTotal([], levels, warm);
    }
  }
}
