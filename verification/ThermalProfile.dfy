/** Preparing a profile for the layer builder, and the energies read off it. */
module ThermalProfile {
  import opened Basics
  import opened ThermalLayers
  import opened ThermalRuns

  const HEIGHT_EPSILON_M: real := 0.1

  // ---- ordering ----

  ghost predicate Ascends(levels: seq<Level>) {
    forall i, j :: 0 <= i < j < |levels| ==> levels[i].height <= levels[j].height
  }

  /** Put l after every level that is not above it. */
  function Insert(levels: seq<Level>, l: Level): seq<Level> {
    var n := |levels|;
    if n == 0 || levels[n - 1].height <= l.height then levels + [l]
    else Insert(levels[..n - 1], l) + [levels[n - 1]]
  }

  function SortByHeight(levels: seq<Level>): seq<Level> {
    if levels == [] then [] else Insert(SortByHeight(levels[..|levels| - 1]), levels[|levels| - 1])
  }

  /** The levels at height h, in order. */
  ghost function AtHeight(levels: seq<Level>, h: real): seq<Level> {
    if levels == [] then []
    else
      var last := levels[|levels| - 1];
      AtHeight(levels[..|levels| - 1], h) + if last.height == h then [last] else []
  }

  lemma AtHeightAppend(levels: seq<Level>, l: Level, h: real)
    ensures AtHeight(levels + [l], h) == AtHeight(levels, h) + if l.height == h then [l] else []
  {
    assert (levels + [l])[..|levels|] == levels;
  }

  lemma {:induction false} InsertOrders(levels: seq<Level>, l: Level)
    requires Ascends(levels)
    ensures |Insert(levels, l)| == |levels| + 1 && Ascends(Insert(levels, l))
    ensures forall x :: x in Insert(levels, l) <==> x in levels || x == l
  {
    var n := |levels|;
    if n > 0 && levels[n - 1].height > l.height {
      var init, last := levels[..n - 1], levels[n - 1];
      assert levels == init + [last];
      InsertOrders(init, l);
      InsertAscends(init, l, last);
    }
  }

  lemma {:induction false} InsertIsStable(levels: seq<Level>, l: Level, h: real)
    ensures AtHeight(Insert(levels, l), h) == AtHeight(levels + [l], h)
  {
    hide AtHeight;
    var n := |levels|;
    AtHeightAppend(levels, l, h);
    if n > 0 && levels[n - 1].height > l.height {
      var init, last := levels[..n - 1], levels[n - 1];
      assert levels == init + [last];
      InsertIsStable(init, l, h);
      AtHeightAppend(init, l, h);
      AtHeightAppend(init, last, h);
      AtHeightAppend(Insert(init, l), last, h);
    }
  }

  lemma InsertAscends(init: seq<Level>, l: Level, last: Level)
    requires Ascends(Insert(init, l)) && Ascends(init + [last]) && l.height < last.height
    requires forall x :: x in Insert(init, l) <==> x in init || x == l
    ensures Ascends(Insert(init, l) + [last])
  {
    var r := Insert(init, l);
    forall i | 0 <= i < |r| ensures r[i].height <= last.height {
      assert r[i] in r;
      if r[i] != l {
        var k :| 0 <= k < |init| && init[k] == r[i];
        assert (init + [last])[k].height <= (init + [last])[|init|].height;
      }
    }
  }

  /** Sorting orders the levels by height and keeps, at every height, the same levels
      in the same order: a stable permutation. */
  lemma {:induction false} SortIsStable(levels: seq<Level>, h: real)
    ensures Ascends(SortByHeight(levels)) && |SortByHeight(levels)| == |levels|
    ensures AtHeight(SortByHeight(levels), h) == AtHeight(levels, h)
  {
    if levels != [] {
      var init, last := levels[..|levels| - 1], levels[|levels| - 1];
      SortIsStable(init, h);
      InsertOrders(SortByHeight(init), last);
      InsertIsStable(SortByHeight(init), last, h);
      AtHeightAppend(SortByHeight(init), last, h);
      AtHeightAppend(init, last, h);
      assert levels == init + [last];
    }
  }

  /** An ascending profile is left as it is, so sorting only when some level lies below
      its predecessor is sorting always. */
  lemma {:induction false} SortKeepsAscending(levels: seq<Level>)
    requires Ascends(levels)
    ensures SortByHeight(levels) == levels
  {
    if levels != [] {
      var init := levels[..|levels| - 1];
      SortKeepsAscending(init);
      assert levels == init + [levels[|levels| - 1]];
    }
  }

  // ---- compaction ----

  /** Keep a level unless it lies within HEIGHT_EPSILON_M of the last kept one. */
  function Keep(kept: seq<Level>, l: Level): seq<Level> {
    if kept != [] && Abs(l.height - kept[|kept| - 1].height) <= HEIGHT_EPSILON_M then kept else kept + [l]
  }

  function Compact(levels: seq<Level>): seq<Level> {
    if levels == [] then [] else Keep(Compact(levels[..|levels| - 1]), levels[|levels| - 1])
  }

  lemma CompactNone(levels: seq<Level>)
    ensures Compact(levels[..0]) == []
  {
  }

  lemma CompactStep(levels: seq<Level>, i: nat)
    requires i < |levels|
    ensures Compact(levels[..i + 1]) == Keep(Compact(levels[..i]), levels[i])
  {
    assert levels[..i + 1][..i] == levels[..i];
  }

  ghost predicate Spaced(levels: seq<Level>) {
    forall i, j :: 0 <= i && j == i + 1 < |levels| ==> levels[j].height - levels[i].height > HEIGHT_EPSILON_M
  }

  /** The level stands for l: not above it and at most HEIGHT_EPSILON_M below. */
  ghost predicate Covers(kept: seq<Level>, l: Level) {
    exists k :: 0 <= k < |kept| && l.height - HEIGHT_EPSILON_M <= kept[k].height <= l.height
  }

  lemma KeepSpaces(kept: seq<Level>, l: Level)
    requires Spaced(kept) && (kept != [] ==> kept[|kept| - 1].height <= l.height)
    ensures var r := Keep(kept, l); Spaced(r) && r != [] && r[|r| - 1].height <= l.height
  {
  }

  lemma KeepCovers(kept: seq<Level>, l: Level, x: Level)
    requires kept != [] ==> kept[|kept| - 1].height <= l.height
    requires Covers(kept, x) || x == l
    ensures Covers(Keep(kept, l), x)
  {
    var r := Keep(kept, l);
    if Covers(kept, x) {
      var k :| 0 <= k < |kept| && x.height - HEIGHT_EPSILON_M <= kept[k].height <= x.height;
      assert r[k] == kept[k];
    } else {
      var k := |r| - 1;
      assert x.height - HEIGHT_EPSILON_M <= r[k].height <= x.height;
    }
  }

  /** On an ascending profile the kept levels are more than HEIGHT_EPSILON_M apart and
      the lowest level is kept. */
  lemma {:induction false} CompactSpaces(levels: seq<Level>)
    requires Ascends(levels)
    ensures var kept := Compact(levels);
      && Spaced(kept)
      && (levels != [] ==> kept != [] && kept[0] == levels[0] && kept[|kept| - 1].height <= levels[|levels| - 1].height)
  {
    if levels != [] {
      hide Spaced;
      var n := |levels| - 1;
      CompactSpaces(levels[..n]);
      if n > 0 { assert levels[n - 1].height <= levels[n].height; } else { assert Compact(levels[..0]) == []; }
      KeepSpaces(Compact(levels[..n]), levels[n]);
    }
  }

  /** Every level is kept or lies just above a kept one, and nothing is made up. */
  lemma {:induction false} CompactCovers(levels: seq<Level>, l: Level)
    requires Ascends(levels)
    ensures l in levels ==> Covers(Compact(levels), l)
    ensures l in Compact(levels) ==> l in levels
  {
    if levels != [] {
      hide Covers;
      var n := |levels| - 1;
      var init := levels[..n];
      CompactCovers(init, l);
      CompactSpaces(init);
      if n > 0 { assert init[n - 1].height <= levels[n].height; } else { assert Compact(init) == []; }
      if l in levels {
        assert l in init || l == levels[n];
        KeepCovers(Compact(init), levels[n], l);
      }
    }
  }

  /** A profile already spaced out loses nothing. */
  lemma {:induction false} CompactKeepsSpaced(levels: seq<Level>)
    requires Spaced(levels)
    ensures Compact(levels) == levels
  {
    if levels != [] {
      var n := |levels| - 1;
      var init := levels[..n];
      assert Spaced(init) by {
        forall i, j | 0 <= i && j == i + 1 < |init| ensures init[j].height - init[i].height > HEIGHT_EPSILON_M {
          assert levels[j].height - levels[i].height > HEIGHT_EPSILON_M;
        }
      }
      CompactKeepsSpaced(init);
      if n > 0 {
        var p := n - 1;
        assert levels[n].height - levels[p].height > HEIGHT_EPSILON_M;
      }
      assert levels == init + [levels[n]];
    }
  }

  ghost function NormalProfile(levels: seq<Level>): seq<Level> { Compact(SortByHeight(levels)) }

  /** The compacting loop: kept levels move to the front of the array. */
  method CompactInPlace(a: array<Level>) returns (write: nat, removed: bool)
    modifies a
    ensures write <= a.Length && a[..write] == Compact(old(a[..]))
    ensures removed <==> write < a.Length
  {
    hide Compact;
    ghost var was := a[..];
    write, removed := 0, false;
    CompactNone(was);
    for read := 0 to a.Length
      invariant write <= read && a[..write] == Compact(was[..read]) && a[read..] == was[read..]
      invariant removed <==> write < read
    {
      var level := a[read];
      assert level == was[read];
      CompactStep(was, read);
      if write > 0 && Abs(level.height - a[write - 1].height) <= HEIGHT_EPSILON_M {
        removed := true;
      } else {
        a[write] := level;
        write := write + 1;
      }
    }
    assert was[..a.Length] == was;
  }

  method IsReordered(a: array<Level>) returns (reordered: bool)
    ensures reordered <==> !Ascends(a[..])
  {
    reordered := false;
    var i := 1;
    while i < a.Length
      invariant 1 <= i && (a.Length > 0 ==> i <= a.Length && Ascends(a[..i]))
    {
      if a[i].height < a[i - 1].height {
        assert !Ascends(a[..]) by { assert a[..][i].height < a[..][i - 1].height; }
        return true;
      }
      forall p | 0 <= p < i ensures a[p].height <= a[i].height {
        if p < i - 1 { assert a[..i][p].height <= a[..i][i - 1].height; }
      }
      i := i + 1;
    }
    if a.Length > 0 { assert a[..a.Length] == a[..]; }
  }

  /** Sort if needed, then compact; the first write levels are the normal profile. */
  method NormalizeProfile(a: array<Level>) returns (write: nat, reordered: bool, removed: bool)
    modifies a
    ensures write <= a.Length && a[..write] == NormalProfile(old(a[..]))
    ensures reordered <==> !Ascends(old(a[..]))
    ensures removed <==> write < a.Length
  {
    ghost var was := a[..];
    reordered := IsReordered(a);
    if reordered {
      var sorted := SortByHeight(a[..]);
      SortIsStable(was, 0.0);
      forall i | 0 <= i < a.Length { a[i] := sorted[i]; }
      assert a[..] == sorted;
    } else {
      SortKeepsAscending(was);
    }
    write, removed := CompactInPlace(a);
  }

  /** Whatever the input, the layers of the normalized profile alternate and their
      totals are exactly the warm and the cold part of its wet-bulb integral; and
      normalizing again changes nothing. */
  lemma NormalizedProfileExact(levels: seq<Level>)
    ensures var p := NormalProfile(levels);
      && Increasing(p) && Alternating(Layers(p)) && NormalProfile(p) == p
      && forall warm :: Total(Layers(p), warm) == ProfilePart(p, warm)
  {
    hide Layers, Compact, SortByHeight;
    SortIsStable(levels, 0.0);
    var p := NormalProfile(levels);
    CompactSpaces(SortByHeight(levels));
    LayersExact(p);
    SpacedAscends(p);
    SortKeepsAscending(p);
    CompactKeepsSpaced(p);
  }

  lemma {:induction false} SpacedAscends(levels: seq<Level>)
    requires Spaced(levels)
    ensures Ascends(levels)
  {
    if |levels| > 1 {
      var n := |levels| - 1;
      var init, p := levels[..n], n - 1;
      forall i, j | 0 <= i && j == i + 1 < |init| ensures init[j].height - init[i].height > HEIGHT_EPSILON_M {
        assert levels[j].height - levels[i].height > HEIGHT_EPSILON_M;
      }
      SpacedAscends(init);
      assert levels[n].height - levels[p].height > HEIGHT_EPSILON_M;
      forall i, j | 0 <= i < j < |levels| ensures levels[i].height <= levels[j].height {
        if j < n { assert init[i].height <= init[j].height; }
        else if i < p { assert init[i].height <= init[p].height; }
      }
    }
  }

  // ---- energies ----

  datatype EnergySummary = EnergySummary(surfaceWetBulb: real, melting: real, aloft: real, refreezing: real)

  /** Index of the cold layer nearest the ground, where there is one. */
  ghost function ColdIndex(layers: seq<ThermalLayer>): (c: nat)
    ensures forall i :: 0 <= i < c && i < |layers| ==> layers[i].warm
    ensures Alternating(layers) && c < |layers| ==> !layers[c].warm
  {
    if layers != [] && layers[0].warm then 1 else 0
  }

  lemma {:induction false} LayersFromSplit(stack: seq<ThermalLayer>, levels: seq<Level>, i: nat)
    requires 1 <= i < |levels|
    ensures LayersFrom(stack, levels[..i + 1])
         == AppendAll(LayersFrom(stack, levels[..i]), SegmentEnergies(levels[i - 1], levels[i]))
    decreases |levels|
  {
    hide SegmentEnergies, AppendAll;
    var tail := levels[1..];
    if i == 1 {
      assert levels[..2][1..] == [levels[1]];
    } else {
      assert levels[..i + 1][1..] == tail[..i] && levels[..i][1..] == tail[..i - 1];
      LayersFromSplit(AppendAll(stack, SegmentEnergies(levels[0], levels[1])), tail, i - 1);
    }
  }

  /** One window of the builder's loop. */
  method AddSegment(layers: seq<ThermalLayer>, lower: Level, upper: Level) returns (r: seq<ThermalLayer>)
    ensures r == AppendAll(layers, SegmentEnergies(lower, upper))
  {
    hide Append, AppendAll, LayerEnergy, Crosses, CrossingHeight;
    r := layers;
    AppendAllShort(layers, 0.0, 0.0);
    var tw0, tw1 := lower.wetBulb, upper.wetBulb;
    if upper.height - lower.height <= 0.0 {
      return;
    }
    if Crosses(tw0, tw1) {
      CrossesMeans(tw0, tw1);
      var crossing := CrossingHeight(lower, upper);
      var below := LayerEnergy(lower.height, crossing, tw0, 0.0);
      var above := LayerEnergy(crossing, upper.height, 0.0, tw1);
      AppendAllShort(layers, below, above);
      r := Append(r, below);
      r := Append(r, above);
    } else {
      var whole := LayerEnergy(lower.height, upper.height, tw0, tw1);
      AppendAllShort(layers, whole, 0.0);
      r := Append(r, whole);
    }
  }

  method BuildLayers(levels: seq<Level>) returns (layers: seq<ThermalLayer>)
    ensures layers == Layers(levels)
    ensures Alternating(layers) && RunsOf(layers, Energies(levels))
  {
    hide SegmentEnergies, AppendAll, RunsOf, Energies, Alternating;
    layers := [];
    var i := 1;
    while i < |levels|
      invariant 1 <= i && (|levels| > 0 ==> i <= |levels| && layers == LayersFrom([], levels[..i]))
      invariant levels == [] ==> layers == []
    {
      layers := AddSegment(layers, levels[i - 1], levels[i]);
      LayersFromSplit([], levels, i);
      i := i + 1;
    }
    if |levels| > 0 { assert levels[..|levels|] == levels; }
    LayersAreRuns(levels, layers);
  }

  method MeltingTotal(layers: seq<ThermalLayer>) returns (sum: real)
    ensures sum == Total(layers, true)
  {
    sum := 0.0;
    for i := 0 to |layers|
      invariant sum == Total(layers[..i], true)
    {
      assert layers[..i + 1][..i] == layers[..i];
      if layers[i].warm {
        sum := sum + layers[i].energy;
      }
    }
    assert layers[..|layers|] == layers;
  }

  /** Build the layers and read the energies off them. The warm total is the warm part
      of the wet-bulb integral. Because layers alternate, the two sign filters of the
      pairing never reject: the pair is there exactly when a layer follows the cold one. */
  method CalculateEnergies(levels: seq<Level>) returns (r: EnergySummary, layers: seq<ThermalLayer>)
    requires levels != []
    ensures layers == Layers(levels) && r.surfaceWetBulb == levels[0].wetBulb
    ensures Alternating(layers) && RunsOf(layers, Energies(levels))
    ensures Increasing(levels) ==> r.melting == ProfilePart(levels, true)
    ensures var c := ColdIndex(layers);
            if c + 1 < |layers|
            then layers[c + 1].warm && !layers[c].warm && r.aloft == layers[c + 1].energy > 0.0
                 && r.refreezing == layers[c].energy > 0.0
            else r.aloft == 0.0 == r.refreezing
  {
    hide LayersFrom, ProfilePart, RunsOf, Energies;
    layers := BuildLayers(levels);
    var melting := MeltingTotal(layers);
    if Increasing(levels) { LayersExact(levels); }
    var cold := if |layers| > 0 && !layers[0].warm then 0
                else if |layers| > 1 && !layers[1].warm then 1 else -1;
    var aloft, refreezing := 0.0, 0.0;
    if cold >= 0 && cold + 1 < |layers| && layers[cold + 1].warm {
      aloft, refreezing := layers[cold + 1].energy, layers[cold].energy;
    }
    r := EnergySummary(levels[0].wetBulb, melting, aloft, refreezing);
  }
}
