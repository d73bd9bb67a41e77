/** Helicity in other frames: an affine change of all winds and of the storm scales it by
    the determinant. So a moving observer and a turned map see the same helicity, and a
    mirrored map the opposite one. */
module HelicityFrames {
  import opened Basics
  import opened StormHelicity

  /** The map that takes (u, v) to (a u + b v + e, c u + d v + f). */
  datatype Frame = Frame(a: real, b: real, c: real, d: real, e: real, f: real)

  ghost function Combined(x: real, y: real, a: real, b: real, e: real): real { a * x + b * y + e }

  ghost function Seen(m: Frame, w: Wind): Wind {
    Wind(Combined(w.u, w.v, m.a, m.b, m.e), Combined(w.u, w.v, m.c, m.d, m.f))
  }

  ghost function Determinant(m: Frame): real { m.a * m.d - m.b * m.c }

  /** The profile with every wind as seen from the frame. */
  ghost function SeenProfile(m: Frame, p: Profile): (q: Profile)
    requires |p.u| == |p.v|
    ensures q.heights == p.heights && |q.u| == |q.v| == |p.u|
    ensures forall i :: 0 <= i < |p.u| ==> Node(q, i) == Seen(m, Node(p, i))
  {
    Profile(p.heights, seq(|p.u|, i requires 0 <= i < |p.u| => Seen(m, Node(p, i)).u),
            seq(|p.u|, i requires 0 <= i < |p.u| => Seen(m, Node(p, i)).v))
  }

  // ---- interpolation commutes with the map ----

  ghost predicate AllCombined(z: seq<real>, x: seq<real>, y: seq<real>, a: real, b: real, e: real) {
    |z| == |x| == |y| && forall i :: 0 <= i < |z| ==> z[i] == Combined(x[i], y[i], a, b, e)
  }

  lemma BlendCombines(x0: real, x1: real, y0: real, y1: real, a: real, b: real, e: real, w: real)
    ensures Blend(Combined(x0, y0, a, b, e), Combined(x1, y1, a, b, e), w)
         == Combined(Blend(x0, x1, w), Blend(y0, y1, w), a, b, e)
  {
    var dx, dy := x1 - x0, y1 - y0;
    assert a * x1 - a * x0 == a * dx && b * y1 - b * y0 == b * dy;
    assert a * (x0 + w * dx) == a * x0 + w * (a * dx);
    assert b * (y0 + w * dy) == b * y0 + w * (b * dy);
    assert w * (a * dx + b * dy) == w * (a * dx) + w * (b * dy);
  }

  lemma {:induction false} InterpFromCombines(h: seq<real>, z: seq<real>, x: seq<real>, y: seq<real>,
                                              a: real, b: real, e: real, t: real, idx: nat)
    requires AllCombined(z, x, y, a, b, e) && |h| == |z| && 1 <= idx <= |h|
    ensures InterpFrom(h, z, t, idx) == Combined(InterpFrom(h, x, t, idx), InterpFrom(h, y, t, idx), a, b, e)
    decreases |h| - idx
  {
    hide Combined, Blend;
    if idx < |h| {
      if t <= h[idx] {
        var dz := h[idx] - h[idx - 1];
        if Abs(dz) >= THIN_LAYER {
          BlendCombines(x[idx - 1], x[idx], y[idx - 1], y[idx], a, b, e, (t - h[idx - 1]) / dz);
        }
      } else {
        InterpFromCombines(h, z, x, y, a, b, e, t, idx + 1);
      }
    }
  }

  lemma InterpCombines(h: seq<real>, z: seq<real>, x: seq<real>, y: seq<real>, a: real, b: real, e: real, t: real)
    requires AllCombined(z, x, y, a, b, e)
    ensures Interp(h, z, t).Some? == Interp(h, x, t).Some? == Interp(h, y, t).Some?
    ensures Interp(h, z, t).Some? ==>
      Interp(h, z, t).value == Combined(Interp(h, x, t).value, Interp(h, y, t).value, a, b, e)
  {
    hide Combined, InterpFrom;
    if |h| == |z| && h != [] { InterpFromCombines(h, z, x, y, a, b, e, t, 1); }
  }

  lemma WindSeen(m: Frame, p: Profile, t: real)
    requires |p.u| == |p.v|
    ensures WindAt(SeenProfile(m, p), t) ==
      if WindAt(p, t).Some? then Some(Seen(m, WindAt(p, t).value)) else None
  {
    hide Combined, Interp;
    var q := SeenProfile(m, p);
    assert AllCombined(q.u, p.u, p.v, m.a, m.b, m.e) by {
      forall i | 0 <= i < |q.u| ensures q.u[i] == Combined(p.u[i], p.v[i], m.a, m.b, m.e) {
        assert q.u[i] == Node(q, i).u;
      }
    }
    assert AllCombined(q.v, p.u, p.v, m.c, m.d, m.f) by {
      forall i | 0 <= i < |q.v| ensures q.v[i] == Combined(p.u[i], p.v[i], m.c, m.d, m.f) {
        assert q.v[i] == Node(q, i).v;
      }
    }
    InterpCombines(p.heights, q.u, p.u, p.v, m.a, m.b, m.e, t);
    InterpCombines(p.heights, q.v, p.u, p.v, m.c, m.d, m.f, t);
  }

  // ---- sweeps scale by the determinant ----

  lemma CombinedDifference(x: real, y: real, x0: real, y0: real, a: real, b: real, e: real)
    ensures Combined(x, y, a, b, e) - Combined(x0, y0, a, b, e) == a * (x - x0) + b * (y - y0)
  {
  }

  lemma CrossScales(a: real, b: real, c: real, d: real, x: real, y: real, s: real, t: real)
    ensures (a * s + b * t) * (c * x + d * y) - (a * x + b * y) * (c * s + d * t) == (a * d - b * c) * (s * y - x * t)
  {
    assert (a * s + b * t) * (c * x + d * y)
        == (a * c) * (s * x) + (a * d) * (s * y) + (b * c) * (t * x) + (b * d) * (t * y);
    assert (a * x + b * y) * (c * s + d * t)
        == (a * c) * (s * x) + (a * d) * (x * t) + (b * c) * (y * s) + (b * d) * (t * y);
    assert (a * d) * (s * y) - (a * d) * (x * t) == (a * d) * (s * y - x * t);
    assert (b * c) * (t * x) - (b * c) * (y * s) == -(b * c) * (s * y - x * t);
  }

  lemma SweptSeen(m: Frame, a: Wind, b: Wind, storm: Wind)
    ensures Swept(Seen(m, a), Seen(m, b), Seen(m, storm)) == Determinant(m) * Swept(a, b, storm)
  {
    hide Combined;
    CombinedDifference(a.u, a.v, storm.u, storm.v, m.a, m.b, m.e);
    CombinedDifference(a.u, a.v, storm.u, storm.v, m.c, m.d, m.f);
    CombinedDifference(b.u, b.v, storm.u, storm.v, m.a, m.b, m.e);
    CombinedDifference(b.u, b.v, storm.u, storm.v, m.c, m.d, m.f);
    CrossScales(m.a, m.b, m.c, m.d, a.u - storm.u, a.v - storm.v, b.u - storm.u, b.v - storm.v);
  }

  lemma LastStepSeen(m: Frame, p: Profile, top: real, prev: Wind, prevH: real, storm: Wind)
    requires |p.u| == |p.v|
    ensures LastStep(SeenProfile(m, p), top, Seen(m, prev), prevH, Seen(m, storm))
         == Determinant(m) * LastStep(p, top, prev, prevH, storm)
  {
    hide WindAt, Seen, Swept, Determinant;
    WindSeen(m, p, top);
    if WindAt(p, top).Some? { SweptSeen(m, prev, WindAt(p, top).value, storm); }
  }

  lemma {:induction false} WalkSeen(m: Frame, p: Profile, bottom: real, top: real, idx: nat, prev: Wind, prevH: real, storm: Wind)
    requires |p.heights| == |p.u| == |p.v| && idx <= |p.heights|
    ensures WalkFrom(SeenProfile(m, p), bottom, top, idx, Seen(m, prev), prevH, Seen(m, storm))
         == Determinant(m) * WalkFrom(p, bottom, top, idx, prev, prevH, storm)
    decreases |p.heights| - idx
  {
    hide LastStep, Seen, Swept, Determinant, SeenProfile;
    LastStepSeen(m, p, top, prev, prevH, storm);
    if idx < |p.heights| {
      var h := p.heights[idx];
      if h <= bottom {
        WalkSeen(m, p, bottom, top, idx + 1, prev, prevH, storm);
      } else if h < top {
        if h <= prevH {
          WalkSeen(m, p, bottom, top, idx + 1, prev, prevH, storm);
        } else {
          WalkSeen(m, p, bottom, top, idx + 1, Node(p, idx), h, storm);
          SweptSeen(m, prev, Node(p, idx), storm);
          Distribute(Determinant(m), Swept(prev, Node(p, idx), storm),
                     WalkFrom(p, bottom, top, idx + 1, Node(p, idx), h, storm));
        }
      }
    }
  }

  lemma Distribute(k: real, x: real, y: real)
    ensures k * (x + y) == k * x + k * y
  {
  }

  /** For any profile, any bounds and any storm. */
  lemma SrhSeen(m: Frame, p: Profile, bottom: real, top: real, storm: Wind)
    requires |p.u| == |p.v|
    ensures var r, x := Srh(SeenProfile(m, p), bottom, top, Seen(m, storm)), Srh(p, bottom, top, storm);
      r.Some? == x.Some? && (r.Some? ==> r.value == Determinant(m) * x.value)
  {
    hide WalkFrom, WindAt, Seen, Determinant;
    WindSeen(m, p, bottom);
    if WindAt(p, bottom).Some? {
      InterpLengths(p, bottom);
      WalkSeen(m, p, bottom, top, 0, WindAt(p, bottom).value, bottom, storm);
    }
  }

  lemma InterpLengths(p: Profile, t: real)
    requires WindAt(p, t).Some?
    ensures |p.heights| == |p.u| == |p.v|
  {
  }

  /** The scale: a wind that turns by a right angle around the storm, clockwise on the
      map from east to south, sweeps twice the triangle with the storm. */
  lemma RightAngle(storm: Wind, x: real, y: real)
    ensures Swept(Wind(storm.u + x, storm.v), Wind(storm.u, storm.v - y), storm) == x * y
  {
  }
}
