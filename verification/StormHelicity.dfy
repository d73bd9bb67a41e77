/** Storm-relative helicity: the signed hodograph area swept between two heights. */
module StormHelicity {
  import opened Basics

  datatype Wind = Wind(u: real, v: real)

  datatype Profile = Profile(heights: seq<real>, u: seq<real>, v: seq<real>)

  /** Heights this close to the lowest level read its values; layers this thin read
      those of their upper level. */
  const GROUND_SNAP: real := 0.000001
  const THIN_LAYER: real := 0.000000001

  // ---- interpolation ----

  function Blend(x: real, y: real, w: real): real { x + w * (y - x) }

  /** Interpolate in the first layer at or after idx whose top reaches the target. */
  function InterpFrom(heights: seq<real>, values: seq<real>, target: real, idx: nat): real
    requires |heights| == |values| && 1 <= idx <= |heights|
    decreases |heights| - idx
  {
    if idx == |heights| then values[|values| - 1]
    else if target <= heights[idx] then
      var dz := heights[idx] - heights[idx - 1];
      if Abs(dz) < THIN_LAYER then values[idx]
      else Blend(values[idx - 1], values[idx], (target - heights[idx - 1]) / dz)
    else InterpFrom(heights, values, target, idx + 1)
  }

  function Interp(heights: seq<real>, values: seq<real>, target: real): Option<real> {
    if |heights| != |values| || heights == [] then None
    else if target < heights[0] || target > heights[|heights| - 1] then None
    else if Abs(target - heights[0]) < GROUND_SNAP then Some(values[0])
    else Some(InterpFrom(heights, values, target, 1))
  }

  method InterpScalarAtHeight(heights: seq<real>, values: seq<real>, target: real) returns (r: Option<real>)
    ensures r == Interp(heights, values, target)
  {
    if |heights| != |values| || heights == [] {
      return None;
    }
    if target < heights[0] || target > heights[|heights| - 1] {
      return None;
    }
    if Abs(target - heights[0]) < GROUND_SNAP {
      return Some(values[0]);
    }
    for idx := 1 to |heights|
      invariant InterpFrom(heights, values, target, 1) == InterpFrom(heights, values, target, idx)
    {
      if target <= heights[idx] {
        var dz := heights[idx] - heights[idx - 1];
        if Abs(dz) < THIN_LAYER {
          return Some(values[idx]);
        }
        var weight := (target - heights[idx - 1]) / dz;
        return Some(Blend(values[idx - 1], values[idx], weight));
      }
    }
    return Some(values[|values| - 1]);
  }

  function WindAt(p: Profile, target: real): Option<Wind> {
    var u, v := Interp(p.heights, p.u, target), Interp(p.heights, p.v, target);
    if u.Some? && v.Some? then Some(Wind(u.value, v.value)) else None
  }

  // ---- the path sum ----

  /** Twice the signed area swept from wind a to wind b, relative to the storm. */
  function Swept(a: Wind, b: Wind, storm: Wind): real {
    (b.u - storm.u) * (a.v - storm.v) - (a.u - storm.u) * (b.v - storm.v)
  }

  function Node(p: Profile, i: nat): Wind
    requires i < |p.u| && i < |p.v|
  {
    Wind(p.u[i], p.v[i])
  }

  function LastStep(p: Profile, top: real, prev: Wind, prevH: real, storm: Wind): real {
    if top > prevH && WindAt(p, top).Some? then Swept(prev, WindAt(p, top).value, storm) else 0.0
  }

  /** What the walk over the levels from idx on still adds. */
  function WalkFrom(p: Profile, bottom: real, top: real, idx: nat, prev: Wind, prevH: real, storm: Wind): real
    requires |p.heights| == |p.u| == |p.v| && idx <= |p.heights|
    decreases |p.heights| - idx
  {
    if idx == |p.heights| then LastStep(p, top, prev, prevH, storm)
    else
      var h := p.heights[idx];
      if h <= bottom then WalkFrom(p, bottom, top, idx + 1, prev, prevH, storm)
      else if h >= top then LastStep(p, top, prev, prevH, storm)
      else if h <= prevH then WalkFrom(p, bottom, top, idx + 1, prev, prevH, storm)
      else Swept(prev, Node(p, idx), storm) + WalkFrom(p, bottom, top, idx + 1, Node(p, idx), h, storm)
  }

  /** None stands for the not-a-number result. */
  function Srh(p: Profile, bottom: real, top: real, storm: Wind): Option<real> {
    var start := WindAt(p, bottom);
    if start.None? then None else Some(WalkFrom(p, bottom, top, 0, start.value, bottom, storm))
  }

  method SrhBetweenHeights(p: Profile, bottom: real, top: real, storm: Wind) returns (r: Option<real>)
    ensures r == Srh(p, bottom, top, storm)
  {
    var u := InterpScalarAtHeight(p.heights, p.u, bottom);
    var v := InterpScalarAtHeight(p.heights, p.v, bottom);
    if u.None? || v.None? {
      return None;
    }
    var prev, prevH, srh := Wind(u.value, v.value), bottom, 0.0;
    ghost var total := WalkFrom(p, bottom, top, 0, prev, prevH, storm);
    var idx := 0;
    while idx < |p.heights|
      invariant 0 <= idx <= |p.heights|
      invariant srh + WalkFrom(p, bottom, top, idx, prev, prevH, storm) == total
    {
      var h := p.heights[idx];
      if h <= bottom {
      } else if h >= top {
        break;
      } else if h <= prevH {
      } else {
        srh := srh + Swept(prev, Node(p, idx), storm);
        prev, prevH := Node(p, idx), h;
      }
      idx := idx + 1;
    }
    assert srh + LastStep(p, top, prev, prevH, storm) == total;
    if top > prevH {
      var topU := InterpScalarAtHeight(p.heights, p.u, top);
      var topV := InterpScalarAtHeight(p.heights, p.v, top);
      if topU.Some? && topV.Some? {
        srh := srh + Swept(prev, Wind(topU.value, topV.value), storm);
      }
    }
    return Some(srh);
  }

  // ---- ascending profiles ----

  ghost predicate StrictlyAscending(h: seq<real>) {
    forall i, j :: 0 <= i < j < |h| ==> h[i] < h[j]
  }

  ghost predicate Ascending(p: Profile) {
    |p.heights| == |p.u| == |p.v| && |p.heights| >= 2 && StrictlyAscending(p.heights)
  }

  /** The snap to the lowest level stays within the lowest layer. */
  ghost predicate Grounded(p: Profile)
    requires |p.heights| >= 2
  {
    p.heights[0] + GROUND_SNAP <= p.heights[1]
  }

  ghost predicate Inside(p: Profile, t: real)
    requires |p.heights| >= 1
  {
    p.heights[0] <= t <= p.heights[|p.heights| - 1]
  }

  /** The first level above t (strictly, or not). */
  ghost function FirstAbove(p: Profile, t: real, strict: bool): (k: nat)
    requires Ascending(p)
    ensures k <= |p.heights|
    ensures forall i :: 0 <= i < k ==> p.heights[i] < t || (strict && p.heights[i] == t)
    ensures forall i :: k <= i < |p.heights| ==> p.heights[i] > t || (!strict && p.heights[i] == t)
  {
    FirstFrom(p, t, strict, 0)
  }

  ghost function FirstFrom(p: Profile, t: real, strict: bool, i: nat): (k: nat)
    requires Ascending(p) && i <= |p.heights|
    requires forall j :: 0 <= j < i ==> p.heights[j] < t || (strict && p.heights[j] == t)
    ensures i <= k <= |p.heights|
    ensures forall j :: 0 <= j < k ==> p.heights[j] < t || (strict && p.heights[j] == t)
    ensures forall j :: k <= j < |p.heights| ==> p.heights[j] > t || (!strict && p.heights[j] == t)
    decreases |p.heights| - i
  {
    if i == |p.heights| || p.heights[i] > t || (!strict && p.heights[i] == t) then i else FirstFrom(p, t, strict, i + 1)
  }

  /** Sweep a, then the levels lo .. hi - 1, then b. */
  ghost function Chain(p: Profile, a: Wind, lo: nat, hi: nat, b: Wind, storm: Wind): real
    requires |p.u| == |p.v| && hi <= |p.u|
    decreases hi - lo
  {
    if lo >= hi then Swept(a, b, storm) else Swept(a, Node(p, lo), storm) + Chain(p, Node(p, lo), lo + 1, hi, b, storm)
  }

  /** On an ascending profile the walk is the chain of levels strictly inside. */
  lemma {:induction false} WalkIsChain(p: Profile, bottom: real, top: real, idx: nat, prev: Wind, prevH: real, storm: Wind, b: Wind)
    requires Ascending(p) && bottom < top && WindAt(p, top) == Some(b)
    requires FirstAbove(p, bottom, true) <= idx <= |p.heights|
    requires prevH < top && forall i :: idx <= i < |p.heights| ==> prevH < p.heights[i]
    ensures WalkFrom(p, bottom, top, idx, prev, prevH, storm) == Chain(p, prev, idx, FirstAbove(p, top, false), b, storm)
    decreases |p.heights| - idx
  {
    hide WindAt;
    var hi := FirstAbove(p, top, false);
    if idx < |p.heights| {
      var h := p.heights[idx];
      assert h > bottom;
      if h < top {
        WalkIsChain(p, bottom, top, idx + 1, Node(p, idx), h, storm, b);
      }
    }
  }

  lemma {:induction false} WalkSkipsBelow(p: Profile, bottom: real, top: real, idx: nat, prev: Wind, prevH: real, storm: Wind)
    requires Ascending(p) && idx <= FirstAbove(p, bottom, true)
    ensures WalkFrom(p, bottom, top, idx, prev, prevH, storm)
         == WalkFrom(p, bottom, top, FirstAbove(p, bottom, true), prev, prevH, storm)
    decreases FirstAbove(p, bottom, true) - idx
  {
    hide LastStep;
    if idx < FirstAbove(p, bottom, true) {
      assert p.heights[idx] <= bottom;
      WalkSkipsBelow(p, bottom, top, idx + 1, prev, prevH, storm);
    }
  }

  lemma SrhIsChain(p: Profile, bottom: real, top: real, storm: Wind)
    requires Ascending(p) && bottom < top && Inside(p, bottom) && Inside(p, top)
    ensures WindAt(p, bottom).Some? && WindAt(p, top).Some?
    ensures Srh(p, bottom, top, storm) ==
            Some(Chain(p, WindAt(p, bottom).value, FirstAbove(p, bottom, true), FirstAbove(p, top, false),
                       WindAt(p, top).value, storm))
  {
    var a, lo := WindAt(p, bottom).value, FirstAbove(p, bottom, true);
    WalkSkipsBelow(p, bottom, top, 0, a, bottom, storm);
    WalkIsChain(p, bottom, top, lo, a, bottom, storm, WindAt(p, top).value);
  }

  // ---- winds on one layer lie on one line ----

  function OnLine(a: Wind, b: Wind, w: real): Wind { Wind(Blend(a.u, b.u, w), Blend(a.v, b.v, w)) }

  /** The weight the interpolation gives height t inside layer k. */
  ghost function LayerWeight(p: Profile, t: real, k: nat): real
    requires Ascending(p) && 1 <= k < |p.heights|
  {
    if Abs(t - p.heights[0]) < GROUND_SNAP || t == p.heights[k - 1] then 0.0 else UpperWeight(p, t, k)
  }

  ghost function UpperWeight(p: Profile, t: real, k: nat): real
    requires Ascending(p) && 1 <= k < |p.heights|
  {
    var dz := p.heights[k] - p.heights[k - 1];
    if dz < THIN_LAYER then 1.0 else (t - p.heights[k - 1]) / dz
  }

  lemma {:induction false} InterpFindsLayer(p: Profile, values: seq<real>, t: real, k: nat, idx: nat)
    requires Ascending(p) && |values| == |p.heights| && 1 <= idx <= k < |p.heights|
    requires p.heights[k - 1] < t <= p.heights[k]
    ensures InterpFrom(p.heights, values, t, idx)
         == Blend(values[k - 1], values[k], UpperWeight(p, t, k))
    decreases k - idx
  {
    hide Blend;
    if idx < k {
      assert p.heights[idx] <= p.heights[k - 1] < t;
      InterpFindsLayer(p, values, t, k, idx + 1);
    } else {
      BlendEnds(values[k - 1], values[k], 1.0);
    }
  }

  lemma BlendEnds(x: real, y: real, d: real)
    requires d != 0.0
    ensures Blend(x, y, 0.0) == x && Blend(x, y, 1.0) == y && Blend(x, y, d / d) == y
  {
    assert d / d == 1.0;
  }

  /** The upper level of a layer, read away from the ground, has its own value. */
  lemma InterpAtTop(p: Profile, values: seq<real>, k: nat)
    requires Ascending(p) && |values| == |p.heights| && 1 <= k < |p.heights|
    ensures InterpFrom(p.heights, values, p.heights[k], 1) == values[k]
  {
    hide Blend;
    InterpFindsLayer(p, values, p.heights[k], k, 1);
    BlendEnds(values[k - 1], values[k], p.heights[k] - p.heights[k - 1]);
  }

  lemma InterpOnLayer(p: Profile, values: seq<real>, t: real, k: nat)
    requires Ascending(p) && |values| == |p.heights| && 1 <= k < |p.heights|
    requires p.heights[k - 1] <= t <= p.heights[k] && (k == 1 || t - p.heights[0] >= GROUND_SNAP)
    ensures Interp(p.heights, values, t) == Some(Blend(values[k - 1], values[k], LayerWeight(p, t, k)))
  {
    hide Blend;
    var h := p.heights;
    assert h[0] <= h[k - 1] && h[k] <= h[|h| - 1];
    BlendEnds(values[k - 1], values[k], 1.0);
    assert k == 1 || h[1] <= h[k - 1];
    if Abs(t - h[0]) < GROUND_SNAP {
    } else if h[k - 1] < t {
      InterpFindsLayer(p, values, t, k, 1);
    } else {
      InterpAtTop(p, values, k - 1);
    }
  }

  /** Within layer k the wind lies on the line between its two levels. */
  lemma WindOnLayer(p: Profile, t: real, k: nat)
    requires Ascending(p) && 1 <= k < |p.heights| && p.heights[k - 1] <= t <= p.heights[k]
    requires k == 1 || t - p.heights[0] >= GROUND_SNAP
    ensures WindAt(p, t) == Some(OnLine(Node(p, k - 1), Node(p, k), LayerWeight(p, t, k)))
  {
    hide LayerWeight, Interp;
    InterpOnLayer(p, p.u, t, k);
    InterpOnLayer(p, p.v, t, k);
  }

  lemma LevelOnLayer(p: Profile, k: nat)
    requires Ascending(p) && 1 <= k < |p.heights|
    ensures Node(p, k - 1) == OnLine(Node(p, k - 1), Node(p, k), 0.0)
    ensures Node(p, k) == OnLine(Node(p, k - 1), Node(p, k), 1.0)
  {
  }

  /** The wind at a level's own height is the level, unless it snaps to the ground. */
  lemma WindAtLevel(p: Profile, k: nat)
    requires Ascending(p) && k < |p.heights|
    ensures WindAt(p, p.heights[k]) == Some(Node(p, if p.heights[k] - p.heights[0] < GROUND_SNAP then 0 else k))
  {
    hide InterpFrom;
    if k > 0 {
      assert p.heights[0] < p.heights[k] <= p.heights[|p.heights| - 1];
      InterpAtTop(p, p.u, k);
      InterpAtTop(p, p.v, k);
    }
  }

  /** Between two points of one line the swept area grows with the weight. */
  lemma SweptOnLine(a: Wind, b: Wind, x: real, y: real, storm: Wind)
    ensures Swept(OnLine(a, b, x), OnLine(a, b, y), storm) == (y - x) * Swept(a, b, storm)
  {
    var p, q := a.u - storm.u, a.v - storm.v;
    var d, e := b.u - a.u, b.v - a.v;
    assert Swept(a, b, storm) == (p + d) * q - p * (q + e) == d * q - p * e;
    assert Swept(OnLine(a, b, x), OnLine(a, b, y), storm) == (p + y * d) * (q + x * e) - (p + x * d) * (q + y * e);
    ExpandLine(p, q, d, e, x, y);
  }

  lemma ExpandLine(p: real, q: real, d: real, e: real, x: real, y: real)
    ensures (p + y * d) * (q + x * e) - (p + x * d) * (q + y * e) == (y - x) * (d * q - p * e)
  {
    assert (p + y * d) * (q + x * e) == p * q + p * (x * e) + (y * d) * q + (y * d) * (x * e);
    assert (p + x * d) * (q + y * e) == p * q + p * (y * e) + (x * d) * q + (x * d) * (y * e);
    assert (y * d) * (x * e) == (x * d) * (y * e);
    assert p * (x * e) - p * (y * e) == (x - y) * (p * e);
    assert (y * d) * q - (x * d) * q == (y - x) * (d * q);
  }

  /** A point on the same line splits a sweep. */
  lemma SweptSplits(a: Wind, b: Wind, x: real, m: real, y: real, storm: Wind)
    ensures Swept(OnLine(a, b, x), OnLine(a, b, m), storm) + Swept(OnLine(a, b, m), OnLine(a, b, y), storm)
         == Swept(OnLine(a, b, x), OnLine(a, b, y), storm)
  {
    hide Swept, OnLine;
    SweptOnLine(a, b, x, m, storm);
    SweptOnLine(a, b, m, y, storm);
    SweptOnLine(a, b, x, y, storm);
  }

  // ---- additivity ----

  lemma {:induction false} ChainSplitsAtLevel(p: Profile, a: Wind, lo: nat, k: nat, hi: nat, b: Wind, storm: Wind)
    requires |p.u| == |p.v| && lo <= k < hi <= |p.u|
    ensures Chain(p, a, lo, hi, b, storm)
         == Chain(p, a, lo, k, Node(p, k), storm) + Chain(p, Node(p, k), k + 1, hi, b, storm)
    decreases k - lo
  {
    if lo < k { ChainSplitsAtLevel(p, Node(p, lo), lo + 1, k, hi, b, storm); }
  }

  lemma {:induction false} ChainSplitsBetween(p: Profile, a: Wind, lo: nat, k: nat, hi: nat, m: Wind, b: Wind, storm: Wind)
    requires |p.u| == |p.v| && lo <= k <= hi <= |p.u|
    requires var before, after := if lo < k then Node(p, k - 1) else a, if k < hi then Node(p, k) else b;
             Swept(before, m, storm) + Swept(m, after, storm) == Swept(before, after, storm)
    ensures Chain(p, a, lo, hi, b, storm) == Chain(p, a, lo, k, m, storm) + Chain(p, m, k, hi, b, storm)
    decreases k - lo
  {
    if lo < k { ChainSplitsBetween(p, Node(p, lo), lo + 1, k, hi, m, b, storm); }
  }

  /** Splitting the layer from bottom to top at mid changes nothing. */
  ghost predicate AddsUp(p: Profile, bottom: real, mid: real, top: real, storm: Wind) {
    var whole, lower, upper := Srh(p, bottom, top, storm), Srh(p, bottom, mid, storm), Srh(p, mid, top, storm);
    whole.Some? && lower.Some? && upper.Some? && whole.value == lower.value + upper.value
  }

  /** Helicity is additive: splitting the layer at any height inside it changes
      nothing, whether or not that height is a level. */
  lemma SrhAdditive(p: Profile, bottom: real, mid: real, top: real, storm: Wind)
    requires Ascending(p) && Grounded(p) && bottom < mid < top && Inside(p, bottom) && Inside(p, top)
    ensures AddsUp(p, bottom, mid, top, storm)
  {
    hide Chain, Srh, WindAt, Swept;
    SrhIsChain(p, bottom, top, storm);
    SrhIsChain(p, bottom, mid, storm);
    SrhIsChain(p, mid, top, storm);
    var a, m, b := WindAt(p, bottom).value, WindAt(p, mid).value, WindAt(p, top).value;
    var lo, hi := FirstAbove(p, bottom, true), FirstAbove(p, top, false);
    var k, above := FirstAbove(p, mid, false), FirstAbove(p, mid, true);
    AboveIndices(p, mid);
    if k < |p.heights| && p.heights[k] == mid {
      assert p.heights[1] <= p.heights[k];
      WindAtLevel(p, k);
      ChainSplitsAtLevel(p, a, lo, k, hi, b, storm);
    } else {
      MidSplits(p, bottom, mid, top, storm);
      ChainSplitsBetween(p, a, lo, k, hi, m, b, storm);
    }
  }

  lemma AboveIndices(p: Profile, mid: real)
    requires Ascending(p)
    ensures var k, above := FirstAbove(p, mid, false), FirstAbove(p, mid, true);
            above == if k < |p.heights| && p.heights[k] == mid then k + 1 else k
  {
    hide FirstAbove;
    var k, above := FirstAbove(p, mid, false), FirstAbove(p, mid, true);
    if above < |p.heights| { assert p.heights[above] > mid; }
    if k < |p.heights| { assert p.heights[k] >= mid; }
    if k < |p.heights| && p.heights[k] == mid && k + 1 < |p.heights| {
      assert mid < p.heights[k + 1];
    }
  }

  lemma MidSplits(p: Profile, bottom: real, mid: real, top: real, storm: Wind)
    requires Ascending(p) && Grounded(p) && bottom < mid < top && Inside(p, bottom) && Inside(p, top)
    requires forall i :: 0 <= i < |p.heights| ==> p.heights[i] != mid
    ensures WindAt(p, bottom).Some? && WindAt(p, mid).Some? && WindAt(p, top).Some?
    ensures var lo, k, hi := FirstAbove(p, bottom, true), FirstAbove(p, mid, false), FirstAbove(p, top, false);
            lo <= k <= hi <= |p.heights| &&
            var before := if lo < k then Node(p, k - 1) else WindAt(p, bottom).value;
            var after := if k < hi then Node(p, k) else WindAt(p, top).value;
            var m := WindAt(p, mid).value;
            Swept(before, m, storm) + Swept(m, after, storm) == Swept(before, after, storm)
  {
    hide WindAt, Swept, OnLine, LayerWeight;
    var lo, k, hi := FirstAbove(p, bottom, true), FirstAbove(p, mid, false), FirstAbove(p, top, false);
    assert 1 <= k < |p.heights|;
    SrhIsChain(p, bottom, top, storm);
    var x, y := 0.0, 1.0;
    LevelOnLayer(p, k);
    if lo >= k { WindOnLayer(p, bottom, k); x := LayerWeight(p, bottom, k); }
    if k >= hi { WindOnLayer(p, top, k); y := LayerWeight(p, top, k); }
    WindOnLayer(p, mid, k);
    SweptSplits(Node(p, k - 1), Node(p, k), x, LayerWeight(p, mid, k), y, storm);
  }

  // ---- when helicity is additive ----

  /** For every wind profile on these heights, every storm and every split. */
  ghost predicate Additive(h: seq<real>) {
    forall u, v, bottom, mid, top, storm ::
      h != [] && |u| == |v| == |h| && h[0] <= bottom < mid < top <= h[|h| - 1] ==>
      AddsUp(Profile(h, u, v), bottom, mid, top, storm)
  }

  lemma SweptBack(a: Wind, b: Wind, storm: Wind)
    ensures Swept(a, b, storm) == -Swept(b, a, storm) && Swept(a, a, storm) == 0.0
  {
  }

  lemma ChainShort(p: Profile, a: Wind, lo: nat, b: Wind, storm: Wind)
    requires |p.u| == |p.v|
    ensures lo <= |p.u| ==> Chain(p, a, lo, lo, b, storm) == Swept(a, b, storm)
    ensures lo < |p.u| ==>
      Chain(p, a, lo, lo + 1, b, storm) == Swept(a, Node(p, lo), storm) + Swept(Node(p, lo), b, storm)
    ensures lo + 1 < |p.u| ==>
      Chain(p, a, lo, lo + 2, b, storm)
      == Swept(a, Node(p, lo), storm) + Swept(Node(p, lo), Node(p, lo + 1), storm) + Swept(Node(p, lo + 1), b, storm)
  {
    hide Swept;
    if lo + 1 < |p.u| {
      assert Chain(p, Node(p, lo), lo + 1, lo + 2, b, storm)
          == Swept(Node(p, lo), Node(p, lo + 1), storm) + Chain(p, Node(p, lo + 1), lo + 2, lo + 2, b, storm);
    }
  }

  /** With at most three levels, all within the snap, the wind never leaves the lowest
      level but for a detour there and back: no helicity, however it is split. */
  lemma SnappedIsZero(p: Profile, bottom: real, top: real, storm: Wind)
    requires Ascending(p) && |p.heights| <= 3 && p.heights[|p.heights| - 1] - p.heights[0] < GROUND_SNAP
    requires bottom < top && Inside(p, bottom) && Inside(p, top)
    ensures Srh(p, bottom, top, storm) == Some(0.0)
  {
    hide Swept, Chain, Srh;
    SrhIsChain(p, bottom, top, storm);
    var ground := Node(p, 0);
    assert WindAt(p, bottom) == Some(ground) && WindAt(p, top) == Some(ground);
    var lo, hi := FirstAbove(p, bottom, true), FirstAbove(p, top, false);
    InsideIndices(p, bottom, top);
    if hi <= lo {
      ChainEmpty(p, ground, lo, hi, ground, storm);
      SweptBack(ground, ground, storm);
    } else {
      ChainShort(p, ground, 1, ground, storm);
      SweptBack(ground, Node(p, 1), storm);
    }
  }

  lemma ChainEmpty(p: Profile, a: Wind, lo: nat, hi: nat, b: Wind, storm: Wind)
    requires |p.u| == |p.v| && hi <= |p.u| && hi <= lo
    ensures Chain(p, a, lo, hi, b, storm) == Swept(a, b, storm)
  {
  }

  /** Of at most three levels only the middle one can lie strictly between two heights. */
  lemma InsideIndices(p: Profile, bottom: real, top: real)
    requires Ascending(p) && |p.heights| <= 3 && bottom < top && Inside(p, bottom) && Inside(p, top)
    ensures var lo, hi := FirstAbove(p, bottom, true), FirstAbove(p, top, false);
            hi <= lo || (lo == 1 && hi == 2)
  {
    hide FirstAbove;
    var lo, hi := FirstAbove(p, bottom, true), FirstAbove(p, top, false);
    assert lo > 0 && hi < |p.heights|;
  }

  /** Where the snap reaches past the second level, some winds lose helicity: the split
      at that level reads the lowest one and misses the turn at the second. */
  lemma TightLayerNotAdditive(h: seq<real>)
    requires StrictlyAscending(h) && |h| >= 3 && h[1] - h[0] < GROUND_SNAP
    requires |h| >= 4 || h[2] - h[0] >= GROUND_SNAP
    ensures !Additive(h)
  {
    var n := |h|;
    var u, v := seq(n, i => if i == 1 || i == 2 then 10.0 else 0.0), seq(n, i => if i == 2 then 10.0 else 0.0);
    var p, calm := Profile(h, u, v), Wind(0.0, 0.0);
    var last := if n == 3 then 2 else 3;
    LosesTurn(p, last, calm);
    assert h[0] <= h[0] < h[1] < h[last] <= h[n - 1];
    assert !AddsUp(Profile(h, u, v), h[0], h[1], h[last], calm);
  }

  lemma LosesTurn(p: Profile, last: nat, calm: Wind)
    requires Ascending(p) && |p.heights| >= 3 && p.heights[1] - p.heights[0] < GROUND_SNAP
    requires last < |p.heights| && (last == 3 || (last == 2 && p.heights[2] - p.heights[0] >= GROUND_SNAP))
    requires Node(p, 0) == calm == Wind(0.0, 0.0) && Node(p, 1) == Wind(10.0, 0.0) && Node(p, 2) == Wind(10.0, 10.0)
    ensures !AddsUp(p, p.heights[0], p.heights[1], p.heights[last], calm)
  {
    var h := p.heights;
    var bottom, mid, top := h[0], h[1], h[last];
    TurnIsHundred(calm);
    LevelIndices(p, 0);
    LevelIndices(p, 1);
    LevelIndices(p, last);
    WindAtLevel(p, 0);
    WindAtLevel(p, 1);
    WindAtLevel(p, last);
    assert bottom < mid < top <= h[|h| - 1];
    SrhIsChain(p, bottom, top, calm);
    SrhIsChain(p, bottom, mid, calm);
    SrhIsChain(p, mid, top, calm);
    hide *;
    var w := WindAt(p, top).value;
    ChainShort(p, calm, 1, w, calm);
    ChainShort(p, calm, 1, calm, calm);
    ChainShort(p, calm, 2, w, calm);
    SweptBack(calm, calm, calm);
    SweptFromStorm(calm, Node(p, 1));
    SweptFromStorm(calm, Node(p, 2));
    NotAddingUp(p, bottom, mid, top, calm);
  }

  lemma TurnIsHundred(calm: Wind)
    requires calm == Wind(0.0, 0.0)
    ensures Swept(Wind(10.0, 0.0), Wind(10.0, 10.0), calm) == -100.0
  {
  }

  lemma SweptFromStorm(storm: Wind, b: Wind)
    ensures Swept(storm, b, storm) == 0.0
  {
  }

  lemma NotAddingUp(p: Profile, bottom: real, mid: real, top: real, storm: Wind)
    requires Srh(p, bottom, top, storm).Some? && Srh(p, bottom, mid, storm).Some? && Srh(p, mid, top, storm).Some?
    requires Srh(p, bottom, top, storm).value != Srh(p, bottom, mid, storm).value + Srh(p, mid, top, storm).value
    ensures !AddsUp(p, bottom, mid, top, storm)
  {
  }

  lemma LevelIndices(p: Profile, k: nat)
    requires Ascending(p) && k < |p.heights|
    ensures FirstAbove(p, p.heights[k], false) == k && FirstAbove(p, p.heights[k], true) == k + 1
  {
    hide FirstAbove;
    var at, above := FirstAbove(p, p.heights[k], false), FirstAbove(p, p.heights[k], true);
    var t := p.heights[k];
    assert forall i :: 0 <= i < k ==> p.heights[i] < t;
    assert forall i :: k < i < |p.heights| ==> t < p.heights[i];
    assert at == |p.heights| || p.heights[at] >= t;
    assert above == |p.heights| || p.heights[above] > t;
    assert at == 0 || p.heights[at - 1] < t;
    assert above == 0 || p.heights[above - 1] <= t;
  }

  /** Exactly when: the lowest layer is at least as thick as the snap, or there are too
      few levels for the snap to hide a turn. */
  lemma AdditiveExactly(h: seq<real>)
    requires StrictlyAscending(h)
    ensures Additive(h) <==>
      || |h| <= 2
      || h[1] - h[0] >= GROUND_SNAP
      || (|h| == 3 && h[2] - h[0] < GROUND_SNAP)
  {
    hide Srh, AddsUp;
    if |h| > 2 && h[1] - h[0] < GROUND_SNAP && (|h| > 3 || h[2] - h[0] >= GROUND_SNAP) {
      TightLayerNotAdditive(h);
    } else {
      forall u, v, bottom, mid, top, storm
        | h != [] && |u| == |v| == |h| && h[0] <= bottom < mid < top <= h[|h| - 1]
        ensures AddsUp(Profile(h, u, v), bottom, mid, top, storm)
      {
        var p := Profile(h, u, v);
        assert |h| >= 2;
        if Grounded(p) {
          SrhAdditive(p, bottom, mid, top, storm);
        } else {
          SnappedAddsUp(p, bottom, mid, top, storm);
        }
      }
    }
  }

  lemma SnappedAddsUp(p: Profile, bottom: real, mid: real, top: real, storm: Wind)
    requires Ascending(p) && |p.heights| <= 3 && p.heights[|p.heights| - 1] - p.heights[0] < GROUND_SNAP
    requires bottom < mid < top && Inside(p, bottom) && Inside(p, top)
    ensures AddsUp(p, bottom, mid, top, storm)
  {
    hide Srh;
    SnappedIsZero(p, bottom, top, storm);
    SnappedIsZero(p, bottom, mid, storm);
    SnappedIsZero(p, mid, top, storm);
  }
}
