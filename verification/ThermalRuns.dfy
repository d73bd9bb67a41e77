/** What the thermal layers of a profile are: the maximal runs of one sign among the
    energies of its segments, from the ground up. */
module ThermalRuns {
  import opened Basics
  import opened ThermalLayers

  /** The signed energies of all segments in the order of their heights. */
  ghost function Energies(levels: seq<Level>): seq<real>
    decreases |levels|
  {
    if |levels| < 2 then [] else SegmentEnergies(levels[0], levels[1]) + Energies(levels[1..])
  }

  ghost predicate OneSign(es: seq<real>, warm: bool) {
    forall i :: 0 <= i < |es| ==> if warm then es[i] >= 0.0 else es[i] <= 0.0
  }

  ghost predicate AllZero(es: seq<real>) { forall i :: 0 <= i < |es| ==> es[i] == 0.0 }

  ghost function Sum(es: seq<real>): real {
    if es == [] then 0.0 else Sum(es[..|es| - 1]) + es[|es| - 1]
  }

  /** The layer stands for a run of energies of its sign, and holds all of them. */
  ghost predicate IsRun(layer: ThermalLayer, es: seq<real>) {
    && OneSign(es, layer.warm)
    && layer.energy == if layer.warm then Sum(es) else -Sum(es)
  }

  /** The energies split into consecutive runs, one for each layer in order. */
  ghost predicate RunsOf(layers: seq<ThermalLayer>, es: seq<real>)
    decreases |layers|
  {
    if layers == [] then AllZero(es) else exists cut: nat :: CutAt(layers, es, cut)
  }

  /** The last layer's run starts at the cut. */
  ghost predicate CutAt(layers: seq<ThermalLayer>, es: seq<real>, cut: nat)
    requires layers != []
    decreases |layers|, 0
  {
    var last := |layers| - 1;
    cut <= |es| && RunsOf(layers[..last], es[..cut]) && IsRun(layers[last], es[cut..])
  }

  lemma SumNext(es: seq<real>, e: real)
    ensures Sum(es + [e]) == Sum(es) + e
  {
    assert (es + [e])[..|es|] == es;
  }

  lemma {:induction false} SumSign(es: seq<real>, warm: bool)
    requires OneSign(es, warm)
    ensures if warm then Sum(es) >= 0.0 else Sum(es) <= 0.0
    ensures Sum(es) == 0.0 <==> AllZero(es)
  {
    if es != [] {
      var front := es[..|es| - 1];
      assert OneSign(front, warm);
      SumSign(front, warm);
      assert es == front + [es[|es| - 1]];
      if AllZero(es) { assert AllZero(front); }
    }
  }

  lemma RunNext(layer: ThermalLayer, es: seq<real>, e: real)
    requires IsRun(layer, es) && OneSign([e], layer.warm)
    ensures IsRun(ThermalLayer(layer.warm, layer.energy + Abs(e)), es + [e])
  {
    SumNext(es, e);
    assert [e][0] == e;
  }

  lemma EmptyRun(warm: bool)
    ensures IsRun(ThermalLayer(warm, 0.0), [])
  {
  }

  lemma AppendMeans(layers: seq<ThermalLayer>, e: real)
    ensures var n, warm, out := |layers|, e > 0.0, Append(layers, e);
      if e == 0.0 then out == layers
      else if n > 0 && layers[n - 1].warm == warm then
        out == layers[..n - 1] + [ThermalLayer(warm, layers[n - 1].energy + Abs(e))]
      else out == layers + [ThermalLayer(warm, Abs(e))]
  {
  }

  /** One more energy keeps the layers in step with the runs. */
  lemma AppendRuns(layers: seq<ThermalLayer>, es: seq<real>, e: real)
    requires RunsOf(layers, es)
    ensures RunsOf(Append(layers, e), es + [e])
  {
    hide IsRun, Append;
    var n, more, out := |layers|, es + [e], Append(layers, e);
    AppendMeans(layers, e);
    if n == 0 && e == 0.0 { return; }
    if e == 0.0 || (n > 0 && layers[n - 1].warm == (e > 0.0)) {
      var cut: nat :| CutAt(layers, es, cut);
      assert more[..cut] == es[..cut] && more[cut..] == es[cut..] + [e];
      RunNext(layers[n - 1], es[cut..], e);
      assert out[..n - 1] == layers[..n - 1];
      assert CutAt(out, more, cut);
    } else {
      assert more[..|es|] == es && more[|es|..] == [] + [e];
      EmptyRun(e > 0.0);
      RunNext(ThermalLayer(e > 0.0, 0.0), [], e);
      assert out[..n] == layers;
      assert CutAt(out, more, |es|);
    }
  }

  lemma {:induction false} AppendAllNext(layers: seq<ThermalLayer>, es: seq<real>, e: real)
    ensures AppendAll(layers, es + [e]) == Append(AppendAll(layers, es), e)
    decreases |es|
  {
    hide Append;
    if es == [] {
      assert es + [e] == [e] && [e][1..] == [];
    } else {
      assert (es + [e])[1..] == es[1..] + [e];
      AppendAllNext(Append(layers, es[0]), es[1..], e);
    }
  }

  lemma {:induction false} AppendAllConcat(layers: seq<ThermalLayer>, es: seq<real>, more: seq<real>)
    ensures AppendAll(layers, es + more) == AppendAll(AppendAll(layers, es), more)
    decreases |es|
  {
    hide Append;
    if es == [] {
      assert es + more == more;
    } else {
      assert (es + more)[1..] == es[1..] + more;
      AppendAllConcat(Append(layers, es[0]), es[1..], more);
    }
  }

  lemma {:induction false} LayersFromEnergies(stack: seq<ThermalLayer>, levels: seq<Level>)
    ensures LayersFrom(stack, levels) == AppendAll(stack, Energies(levels))
    decreases |levels|
  {
    hide SegmentEnergies;
    if |levels| >= 2 {
      var es := SegmentEnergies(levels[0], levels[1]);
      LayersFromEnergies(AppendAll(stack, es), levels[1..]);
      AppendAllConcat(stack, es, Energies(levels[1..]));
    }
  }

  lemma {:induction false} AppendAllRuns(es: seq<real>)
    ensures RunsOf(AppendAll([], es), es)
    decreases |es|
  {
    hide Append;
    if es != [] {
      var front, e := es[..|es| - 1], es[|es| - 1];
      assert es == front + [e];
      AppendAllRuns(front);
      AppendRuns(AppendAll([], front), front, e);
      AppendAllNext([], front, e);
    }
  }

  /** Energies of zero belong to whichever run they follow. */
  lemma ZerosFollow(layers: seq<ThermalLayer>, es: seq<real>, cut: nat)
    requires cut <= |es| && RunsOf(layers, es[..cut]) && AllZero(es[cut..])
    ensures RunsOf(layers, es)
    decreases |es| - cut
  {
    if cut == |es| {
      assert es[..cut] == es;
    } else {
      assert es[cut] == es[cut..][0];
      AppendRuns(layers, es[..cut], es[cut]);
      assert es[..cut] + [es[cut]] == es[..cut + 1];
      assert es[cut + 1..] == es[cut..][1..];
      ZerosFollow(layers, es, cut + 1);
    }
  }

  /** The last run without its last energy. */
  lemma RunBefore(layer: ThermalLayer, run: seq<real>, e: real)
    requires IsRun(layer, run + [e])
    ensures OneSign([e], layer.warm) && OneSign(run, layer.warm)
    ensures IsRun(ThermalLayer(layer.warm, layer.energy - Abs(e)), run)
    ensures AllZero(run) ==> layer.energy == Abs(e)
    ensures !AllZero(run) ==> layer.energy > Abs(e)
  {
    SumNext(run, e);
    assert (run + [e])[|run|] == e;
    assert OneSign(run, layer.warm) by {
      assert forall i :: 0 <= i < |run| ==> run[i] == (run + [e])[i];
    }
    SumSign(run, layer.warm);
  }

  /** The last layer of alternating layers, started or continued by e. */
  lemma AppendBack(layers: seq<ThermalLayer>, e: real, started: bool) returns (before: seq<ThermalLayer>)
    requires Alternating(layers) && layers != [] && OneSign([e], layers[|layers| - 1].warm)
    requires var energy := layers[|layers| - 1].energy; if started then energy == Abs(e) else energy > Abs(e)
    ensures var n := |layers| - 1; var last := layers[n];
      before == if started then layers[..n] else layers[n := ThermalLayer(last.warm, last.energy - Abs(e))]
    ensures Alternating(before) && Append(before, e) == layers
  {
    var n := |layers| - 1;
    var last := layers[n];
    assert [e][0] == e;
    if started {
      before := layers[..n];
      assert n > 0 ==> layers[n - 1].warm != layers[n].warm;
    } else {
      before := layers[n := ThermalLayer(last.warm, last.energy - Abs(e))];
    }
  }

  /** Only zeros came before the first layer. */
  lemma ZerosBefore(es: seq<real>, e: real)
    requires AllZero(es + [e])
    ensures AllZero(es) && e == 0.0
  {
    assert (es + [e])[|es|] == e;
    assert forall i :: 0 <= i < |es| ==> es[i] == (es + [e])[i];
  }

  /** The last run holds the last energy. */
  lemma LastCut(layers: seq<ThermalLayer>, es: seq<real>, e: real) returns (cut: nat)
    requires Alternating(layers) && layers != [] && RunsOf(layers, es + [e])
    ensures cut <= |es| && RunsOf(layers[..|layers| - 1], es[..cut]) && IsRun(layers[|layers| - 1], es[cut..] + [e])
  {
    var more := es + [e];
    cut :| CutAt(layers, more, cut);
    assert cut <= |es|;
    assert more[cut..] == es[cut..] + [e] && more[..cut] == es[..cut];
  }

  /** The last energy can be taken off again: the layers before it, and how it was added. */
  lemma RunsBefore(layers: seq<ThermalLayer>, es: seq<real>, e: real) returns (before: seq<ThermalLayer>)
    requires Alternating(layers) && RunsOf(layers, es + [e])
    ensures Alternating(before) && RunsOf(before, es) && Append(before, e) == layers
  {
    hide IsRun, OneSign, AllZero, Alternating;
    if layers == [] {
      ZerosBefore(es, e);
      return layers;
    }
    var n := |layers| - 1;
    var cut := LastCut(layers, es, e);
    RunBefore(layers[n], es[cut..], e);
    before := AppendBack(layers, e, AllZero(es[cut..]));
    if AllZero(es[cut..]) {
      ZerosFollow(before, es, cut);
    } else {
      assert before[..n] == layers[..n];
      assert CutAt(before, es, cut);
    }
  }

  /** Alternating layers that are the runs are the only ones. */
  lemma {:induction false} RunsUnique(layers: seq<ThermalLayer>, es: seq<real>)
    requires Alternating(layers) && RunsOf(layers, es)
    ensures layers == AppendAll([], es)
    decreases |es|
  {
    if es != [] {
      var front, e := es[..|es| - 1], es[|es| - 1];
      assert es == front + [e];
      var before := RunsBefore(layers, front, e);
      RunsUnique(before, front);
      AppendAllNext([], front, e);
    }
  }

  /** The layers of a profile are exactly the maximal runs of one sign among the energies
      of its segments: each with all the energy of its run, in the order of heights. */
  lemma LayersAreRuns(levels: seq<Level>, layers: seq<ThermalLayer>)
    ensures layers == Layers(levels) <==> Alternating(layers) && RunsOf(layers, Energies(levels))
  {
    hide *;
    LayersFromEnergies([], levels);
    AppendAllRuns(Energies(levels));
    LayersFromAlternate([], levels);
    LayersMeans(levels);
    if Alternating(layers) && RunsOf(layers, Energies(levels)) { RunsUnique(layers, Energies(levels)); }
  }

  lemma LayersMeans(levels: seq<Level>)
    ensures Layers(levels) == LayersFrom([], levels) && Alternating([])
  {
  }
}
