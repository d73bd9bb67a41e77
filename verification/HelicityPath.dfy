/** What the helicity of any profile is, in whatever order its heights come: the area swept
    along a path of winds. */
module HelicityPath {
  import opened Basics
  import opened StormHelicity

  // ---- interpolation between unordered heights ----

  lemma {:induction false} InterpFromSkips(heights: seq<real>, values: seq<real>, t: real, idx: nat, k: nat)
    requires |heights| == |values| && 1 <= idx <= k < |heights|
    requires forall j :: idx <= j < k ==> heights[j] < t
    ensures InterpFrom(heights, values, t, idx) == InterpFrom(heights, values, t, k)
    decreases k - idx
  {
    hide Blend;
    if idx < k { InterpFromSkips(heights, values, t, idx + 1, k); }
  }

  /** The first level from the second on that reaches the height decides: its value if the
      layer below it is thin, else the value on the line through that layer. */
  lemma InterpExactly(heights: seq<real>, values: seq<real>, t: real, k: nat)
    requires |heights| == |values| && 1 <= k < |heights| && t <= heights[k]
    requires heights[0] <= t <= heights[|heights| - 1]
    requires forall j :: 1 <= j < k ==> heights[j] < t
    ensures Interp(heights, values, t).Some?
    ensures var r, dz := Interp(heights, values, t).value, heights[k] - heights[k - 1];
      if t - heights[0] < GROUND_SNAP then r == values[0]
      else if -THIN_LAYER < dz < THIN_LAYER then r == values[k]
      else (r - values[k - 1]) * dz == (t - heights[k - 1]) * (values[k] - values[k - 1])
  {
    InterpFromSkips(heights, values, t, 1, k);
    var dz := heights[k] - heights[k - 1];
    if dz <= -THIN_LAYER || dz >= THIN_LAYER {
      LineThrough(values[k - 1], values[k] - values[k - 1], t - heights[k - 1], dz);
    }
  }

  lemma LineThrough(x: real, d: real, s: real, dz: real)
    requires dz != 0.0
    ensures (x + s / dz * d - x) * dz == s * d
  {
    assert s / dz * dz == s;
    assert (x + s / dz * d - x) * dz == (s / dz * dz) * d;
  }

  // ---- the path ----

  /** The area swept along a path of winds. */
  ghost function Along(path: seq<Wind>, storm: Wind): real {
    if |path| < 2 then 0.0 else Swept(path[0], path[1], storm) + Along(path[1..], storm)
  }

  /** Level i lies above the bottom and above all levels before it, and none up to it has
      left through the top. */
  ghost predicate Visited(p: Profile, bottom: real, top: real, i: nat) {
    && i < |p.heights| && bottom < p.heights[i]
    && (forall j :: 0 <= j <= i ==> p.heights[j] <= bottom || p.heights[j] < top)
    && (forall j :: 0 <= j < i ==> p.heights[j] < p.heights[i])
  }

  /** The visited levels from idx on, in order. */
  ghost predicate Visits(p: Profile, bottom: real, top: real, idx: nat, via: seq<nat>) {
    && (forall k, l :: 0 <= k < l < |via| ==> via[k] < via[l])
    && (forall i: nat :: i in via <==> idx <= i && Visited(p, bottom, top, i))
  }

  ghost predicate InRange(p: Profile, via: seq<nat>) {
    |p.u| == |p.v| && forall k :: 0 <= k < |via| ==> via[k] < |p.u|
  }

  ghost function Nodes(p: Profile, via: seq<nat>): (r: seq<Wind>)
    requires InRange(p, via)
    ensures |r| == |via| && forall k :: 0 <= k < |via| ==> r[k] == Node(p, via[k])
  {
    seq(|via|, k requires 0 <= k < |via| => Node(p, via[k]))
  }

  /** The wind at the top ends the path, if the top is above the bottom and has a wind. */
  ghost function EndOf(p: Profile, bottom: real, top: real): seq<Wind> {
    if top > bottom && WindAt(p, top).Some? then [WindAt(p, top).value] else []
  }

  /** prevH is the highest visited level before idx, or the bottom, and the walk goes on. */
  ghost predicate Standing(p: Profile, bottom: real, top: real, idx: nat, prevH: real) {
    && idx <= |p.heights| && bottom <= prevH && (prevH == bottom || prevH < top)
    && (forall j :: 0 <= j < idx ==> p.heights[j] <= prevH && (p.heights[j] <= bottom || p.heights[j] < top))
    && (prevH == bottom || exists j :: 0 <= j < idx && p.heights[j] == prevH)
  }

  lemma StandsOn(p: Profile, bottom: real, top: real, idx: nat, prevH: real)
    requires Standing(p, bottom, top, idx, prevH) && idx < |p.heights|
    ensures Visited(p, bottom, top, idx) <==> bottom < p.heights[idx] < top && prevH < p.heights[idx]
    ensures p.heights[idx] <= bottom ==> Standing(p, bottom, top, idx + 1, prevH)
    ensures p.heights[idx] < top && p.heights[idx] <= prevH ==> Standing(p, bottom, top, idx + 1, prevH)
    ensures Visited(p, bottom, top, idx) ==> Standing(p, bottom, top, idx + 1, p.heights[idx])
  {
    if prevH != bottom {
      var j :| 0 <= j < idx && p.heights[j] == prevH;
      assert j < idx + 1;
    }
  }

  lemma NoneVisitedAfter(p: Profile, bottom: real, top: real, idx: nat)
    requires idx < |p.heights| && p.heights[idx] > bottom && p.heights[idx] >= top
    ensures forall i: nat :: idx <= i ==> !Visited(p, bottom, top, i)
  {
  }

  lemma VisitsSkip(p: Profile, bottom: real, top: real, idx: nat, via: seq<nat>)
    requires Visits(p, bottom, top, idx + 1, via) && !Visited(p, bottom, top, idx)
    ensures Visits(p, bottom, top, idx, via)
  {
    hide Visited;
  }

  lemma VisitsMore(p: Profile, bottom: real, top: real, idx: nat, via: seq<nat>)
    requires Visits(p, bottom, top, idx + 1, via) && Visited(p, bottom, top, idx)
    ensures Visits(p, bottom, top, idx, [idx] + via)
  {
    hide Visited;
    assert forall k :: 0 <= k < |via| ==> via[k] in via;
  }

  lemma LastIsEnd(p: Profile, bottom: real, top: real, idx: nat, prev: Wind, prevH: real, storm: Wind)
    requires Standing(p, bottom, top, idx, prevH)
    ensures LastStep(p, top, prev, prevH, storm) == Along([prev] + EndOf(p, bottom, top), storm)
  {
    hide Swept, WindAt;
    var path := [prev] + EndOf(p, bottom, top);
    if |path| == 2 { assert Along(path[1..], storm) == 0.0; }
  }

  lemma AlongNext(a: Wind, b: Wind, rest: seq<Wind>, storm: Wind)
    ensures Along([a, b] + rest, storm) == Swept(a, b, storm) + Along([b] + rest, storm)
  {
    assert ([a, b] + rest)[1..] == [b] + rest;
  }

  /** The path with nothing left to visit. */
  lemma PathEnds(p: Profile, prev: Wind, end: seq<Wind>)
    requires |p.u| == |p.v|
    ensures InRange(p, []) && [prev] + Nodes(p, []) + end == [prev] + end
  {
  }

  /** The path with one more level to visit first. */
  lemma PathGrows(p: Profile, prev: Wind, idx: nat, via: seq<nat>, end: seq<Wind>, storm: Wind)
    requires InRange(p, via) && idx < |p.u|
    ensures InRange(p, [idx] + via)
    ensures Along([prev] + Nodes(p, [idx] + via) + end, storm)
         == Swept(prev, Node(p, idx), storm) + Along([Node(p, idx)] + Nodes(p, via) + end, storm)
  {
    hide Along, Swept;
    var rest := Nodes(p, via) + end;
    AlongNext(prev, Node(p, idx), rest, storm);
    assert Nodes(p, [idx] + via) == [Node(p, idx)] + Nodes(p, via);
    assert [prev] + Nodes(p, [idx] + via) + end == [prev, Node(p, idx)] + rest;
    assert [Node(p, idx)] + Nodes(p, via) + end == [Node(p, idx)] + rest;
  }

  lemma {:induction false} WalkIsPath(p: Profile, bottom: real, top: real, idx: nat, prev: Wind, prevH: real, storm: Wind)
    returns (via: seq<nat>)
    requires |p.heights| == |p.u| == |p.v| && Standing(p, bottom, top, idx, prevH)
    ensures Visits(p, bottom, top, idx, via) && InRange(p, via)
    ensures WalkFrom(p, bottom, top, idx, prev, prevH, storm)
         == Along([prev] + Nodes(p, via) + EndOf(p, bottom, top), storm)
    decreases |p.heights| - idx
  {
    hide LastStep, Swept, Visited, Visits, EndOf, Along, Standing, InRange, Nodes;
    StandingInRange(p, bottom, top, idx, prevH);
    if idx == |p.heights| || (p.heights[idx] > bottom && p.heights[idx] >= top) {
      via := [];
      NothingToVisit(p, bottom, top, idx);
      LastIsEnd(p, bottom, top, idx, prev, prevH, storm);
      PathEnds(p, prev, EndOf(p, bottom, top));
      return;
    }
    var h := p.heights[idx];
    StandsOn(p, bottom, top, idx, prevH);
    if h <= bottom || h <= prevH {
      via := WalkIsPath(p, bottom, top, idx + 1, prev, prevH, storm);
      VisitsSkip(p, bottom, top, idx, via);
    } else {
      via := WalkIsPath(p, bottom, top, idx + 1, Node(p, idx), h, storm);
      VisitsMore(p, bottom, top, idx, via);
      PathGrows(p, prev, idx, via, EndOf(p, bottom, top), storm);
      via := [idx] + via;
    }
  }

  lemma StandingInRange(p: Profile, bottom: real, top: real, idx: nat, prevH: real)
    requires Standing(p, bottom, top, idx, prevH)
    ensures idx <= |p.heights|
  {
  }

  lemma NothingToVisit(p: Profile, bottom: real, top: real, idx: nat)
    requires idx == |p.heights| || (idx < |p.heights| && p.heights[idx] > bottom && p.heights[idx] >= top)
    ensures Visits(p, bottom, top, idx, [])
  {
    hide Visited;
    if idx < |p.heights| { NoneVisitedAfter(p, bottom, top, idx); } else { NoneBeyond(p, bottom, top); }
  }

  lemma NoneBeyond(p: Profile, bottom: real, top: real)
    ensures forall i: nat :: |p.heights| <= i ==> !Visited(p, bottom, top, i)
  {
  }

  /** For any profile: the helicity is the area swept from the wind at the bottom along the
      visited levels to the wind at the top. */
  lemma SrhIsPath(p: Profile, bottom: real, top: real, storm: Wind) returns (via: seq<nat>)
    requires WindAt(p, bottom).Some?
    ensures Visits(p, bottom, top, 0, via) && InRange(p, via)
    ensures Srh(p, bottom, top, storm)
         == Some(Along([WindAt(p, bottom).value] + Nodes(p, via) + EndOf(p, bottom, top), storm))
  {
    hide WalkFrom, Visits, Along, EndOf, InRange;
    via := WalkIsPath(p, bottom, top, 0, WindAt(p, bottom).value, bottom, storm);
  }
}
