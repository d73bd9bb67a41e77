/** From the clipped vertices of a triangle to the ring that is kept: sanitizing leaves the
    known ring, or next to nothing if the band only touches the triangle. */
module ContourBandKept {
  import opened Basics
  import opened ContourGeometry
  import opened ContourBandShape
  import opened ContourWheel
  import opened ContourBandRing

  // ---- sanitizing ----

  ghost predicate NeighboursDiffer(vs: seq<Point2>) {
    forall i, j :: 0 <= i && j == i + 1 < |vs| ==> vs[i] != vs[j]
  }

  lemma {:induction false} DropNone(vs: seq<Point2>)
    requires NeighboursDiffer(vs)
    ensures DropRepeats(vs) == vs
    decreases |vs|
  {
    if |vs| > 1 {
      var tail := vs[1..];
      forall i, j | 0 <= i && j == i + 1 < |tail| ensures tail[i] != tail[j] {
        assert vs[i + 1] != vs[j + 1];
      }
      DropNone(tail);
      var one := 1;
      assert vs[0] != vs[one];
      assert [vs[0]] + tail == vs;
    }
  }

  function Run<T>(x: T, n: nat): (r: seq<T>)
    ensures |r| == n && forall i :: 0 <= i < n ==> r[i] == x
  {
    if n == 0 then [] else [x] + Run(x, n - 1)
  }

  function Once<T>(x: T, n: nat): seq<T> { if n == 0 then [] else [x] }

  lemma {:induction false} DropTwice(pre: seq<Point2>, x: Point2, post: seq<Point2>)
    ensures DropRepeats(pre + [x, x] + post) == DropRepeats(pre + [x] + post)
    decreases |pre|
  {
    var long, short := pre + [x, x] + post, pre + [x] + post;
    if pre == [] {
      assert long[1..] == short && long[0] == long[1] == x;
    } else {
      assert long[1..] == pre[1..] + [x, x] + post && short[1..] == pre[1..] + [x] + post;
      DropTwice(pre[1..], x, post);
      assert long[0] == short[0] && long[1] == short[1];
    }
  }

  /** A run counts once. */
  lemma {:induction false} DropRun(pre: seq<Point2>, x: Point2, n: nat, post: seq<Point2>)
    ensures DropRepeats(pre + Run(x, n) + post) == DropRepeats(pre + Once(x, n) + post)
  {
    hide DropRepeats;
    if n <= 1 {
      assert Run(x, n) == Once(x, n);
    } else {
      DropRun(pre, x, n - 1, post);
      var less := Run(x, n - 2);
      assert Run(x, n) == [x, x] + less && Run(x, n - 1) == [x] + less;
      hide Run, Once;
      assert pre + ([x, x] + less) + post == pre + [x, x] + (less + post);
      assert pre + ([x] + less) + post == pre + [x] + (less + post);
      DropTwice(pre, x, less + post);
    }
  }

  lemma SanitizeNothing(vs: seq<Point2>)
    requires NoRepeats(vs)
    ensures SanitizeRing(vs) == vs
  {
    DropNone(vs);
  }

  lemma SanitizeSame(vs: seq<Point2>, ws: seq<Point2>)
    requires DropRepeats(vs) == DropRepeats(ws)
    ensures SanitizeRing(vs) == SanitizeRing(ws)
  {
  }

  /** Points around a hub, with the hub before them, after them, or both: the ring has the
      hub once. */
  lemma SanitizeHub(points: seq<Point2>, hub: Point2, m: nat, n: nat)
    requires NoRepeats(points + [hub]) && points != [] && m + n > 0
    ensures SanitizeRing(Run(hub, m) + points + Run(hub, n)) == if m > 0 then [hub] + points else points + [hub]
  {
    hide SanitizeRing, DropRepeats, Run, Once;
    var x, y, p, q := Run(hub, m), Run(hub, n), Once(hub, m), Once(hub, n);
    DropRun([], hub, m, points + y);
    DropRun(p + points, hub, n, []);
    Regroup(x, points, y);
    Regroup(p, points, y);
    Regroup(p, points, q);
    SanitizeSame(x + points + y, p + points + q);
    OnceAround(points, hub, m, n);
  }

  lemma Regroup(x: seq<Point2>, points: seq<Point2>, y: seq<Point2>)
    ensures [] + x + (points + y) == x + points + y == x + points + y + []
  {
  }

  lemma OnceAround(points: seq<Point2>, hub: Point2, m: nat, n: nat)
    requires NoRepeats(points + [hub]) && points != [] && m + n > 0
    ensures SanitizeRing(Once(hub, m) + points + Once(hub, n)) == if m > 0 then [hub] + points else points + [hub]
  {
    hide DropRepeats;
    HubApart(points, hub);
    if m == 0 {
      assert Once(hub, m) + points + Once(hub, n) == points + [hub];
      SanitizeNothing(points + [hub]);
    } else if n == 0 {
      assert Once(hub, m) + points + Once(hub, n) == [hub] + points;
      SanitizeNothing([hub] + points);
    } else {
      var vs := [hub] + points + [hub];
      assert Once(hub, m) + points + Once(hub, n) == vs;
      assert NeighboursDiffer(vs);
      DropNone(vs);
      assert vs[..|vs| - 1] == [hub] + points;
    }
  }

  lemma HubApart(points: seq<Point2>, hub: Point2)
    requires NoRepeats(points + [hub])
    ensures NoRepeats(points) && NoRepeats([hub] + points) && hub !in points
  {
    var all := points + [hub];
    forall i | 0 <= i < |points| ensures points[i] != hub { assert all[i] != all[|points|]; }
    forall i, j | 0 <= i < j < |points| ensures points[i] != points[j] { assert all[i] != all[j]; }
  }

  // ---- what a side contributes ----

  /** How often a side repeats the corner it leaves, and the one it reaches. */
  function Outs(u: real, w: real, s: Span): nat {
    if s.SameOutside(u, w) then 0
    else if !s.Within(u) then if s.Near(u) == u then 1 else 0
    else if !s.Within(w) && s.Near(w) == u then 1 else 0
  }

  function Ins(u: real, w: real, s: Span): nat {
    if s.SameOutside(u, w) then 0
    else (if !s.Within(u) && s.Near(u) == w then 1 else 0) + if s.Within(w) || s.Near(w) == w then 1 else 0
  }

  lemma PieceShape(i: real, u: real, w: real, s: Span)
    requires s.lo < s.hi
    ensures PiecePositions(i, u, w, s) == Run(i, Outs(u, w, s)) + Crossings(i, u, w, s) + Run(i + 1.0, Ins(u, w, s))
    ensures Outs(u, w, s) > 0 ==> Central(u, s)
    ensures Ins(u, w, s) > 0 ==> Central(w, s)
  {
    hide Ratio;
    if !s.SameOutside(u, w) {
      if !s.Within(u) { RatioFacts(u, w, s.Near(u)); }
      if !s.Within(w) { RatioFacts(u, w, s.Near(w)); }
    }
  }

  /** A corner in the band is listed by one of its two sides, unless all three corners are
      on the bound that the band leaves out. */
  lemma CornerListed(u: real, v: real, w: real, s: Span)
    requires s.lo < s.hi && Central(v, s) && !(s.Over(u) && s.Over(v) && s.Over(w))
    ensures Ins(u, v, s) + Outs(v, w, s) > 0
  {
  }

  // ---- the triangle ----

  /** More than an edge of the triangle lies in the band. */
  predicate Filled(a: real, b: real, c: real, s: Span) {
    && !(a <= s.lo && b <= s.lo && c <= s.lo && !(a == b == c == s.lo))
    && !(a >= s.hi && b >= s.hi && c >= s.hi && !(s.closed && a == b == c == s.hi))
  }

  /** The triangle as points and values: the centre a and the two outer corners. */
  datatype Wedge = Wedge(a: Point2, b: Point2, c: Point2, va: real, vb: real, vc: real) {
    ghost predicate Proper(s: Span) { s.lo < s.hi && Det(a, b, c) != 0.0 }
    function Raw(s: Span): seq<Point2> { Perimeters(a, b, c, Positions(va, vb, vc, s)) }
    function CoreRing(s: Span): seq<Point2> { Perimeters(a, b, c, Core(va, vb, vc, s)) }
    predicate Kept(s: Span) { Filled(va, vb, vc, s) }
  }

  lemma PerimeterInjective(a: Point2, b: Point2, c: Point2, p: real, q: real)
    requires Det(a, b, c) != 0.0 && 0.0 < p < q <= 3.0
    ensures Perimeter(a, b, c, p) != Perimeter(a, b, c, q)
  {
    hide Spot, Det;
    if Perimeter(a, b, c, p) == Perimeter(a, b, c, q) {
      SpotUnique(a, b, c, Along(p), Across(p), Along(q), Across(q));
      assert false;
    }
  }

  lemma PerimetersDiffer(a: Point2, b: Point2, c: Point2, ps: seq<real>)
    requires Det(a, b, c) != 0.0 && RisesIn(ps, 0.0, 3.0)
    ensures NoRepeats(Perimeters(a, b, c, ps))
  {
    hide Perimeter, Det;
    var vs := Perimeters(a, b, c, ps);
    forall i, j | 0 <= i < j < |vs| ensures vs[i] != vs[j] { PerimeterInjective(a, b, c, ps[i], ps[j]); }
  }

  lemma PerimetersConcat(a: Point2, b: Point2, c: Point2, ps: seq<real>, qs: seq<real>)
    ensures Perimeters(a, b, c, ps + qs) == Perimeters(a, b, c, ps) + Perimeters(a, b, c, qs)
  {
    hide Perimeter;
  }

  lemma HubPerimeter(a: Point2, b: Point2, c: Point2)
    ensures Perimeter(a, b, c, 0.0) == a && Perimeter(a, b, c, 3.0) == a
  {
  }

  lemma RunsPerimeter(a: Point2, b: Point2, c: Point2, p: real, n: nat)
    ensures Perimeters(a, b, c, Run(p, n)) == Run(Perimeter(a, b, c, p), n)
    ensures Perimeters(a, b, c, Once(p, n)) == Once(Perimeter(a, b, c, p), n)
  {
    hide Perimeter;
  }

  lemma RunsJoin(x: real, m: nat, n: nat)
    ensures Run(x, m) + Run(x, n) == Run(x, m + n)
  {
  }

  /** The listed positions: runs at the corners, crossings between. */
  function Listed(o: nat, xs: seq<real>, n1: nat, ys: seq<real>, n2: nat, zs: seq<real>, m: nat): seq<real> {
    Run(0.0, o) + xs + Run(1.0, n1) + ys + Run(2.0, n2) + zs + Run(3.0, m)
  }

  lemma PositionsListed(a: real, b: real, c: real, s: Span)
    requires s.lo < s.hi
    ensures Positions(a, b, c, s)
         == Listed(Outs(a, b, s), Crossings(0.0, a, b, s), Ins(a, b, s) + Outs(b, c, s), Crossings(1.0, b, c, s),
                   Ins(b, c, s) + Outs(c, a, s), Crossings(2.0, c, a, s), Ins(c, a, s))
  {
    hide PiecePositions, Run, Outs, Ins, Crossings;
    PieceShape(0.0, a, b, s);
    PieceShape(1.0, b, c, s);
    PieceShape(2.0, c, a, s);
    RunsJoin(1.0, Ins(a, b, s), Outs(b, c, s));
    RunsJoin(2.0, Ins(b, c, s), Outs(c, a, s));
    Gather(Run(0.0, Outs(a, b, s)), Crossings(0.0, a, b, s), Run(1.0, Ins(a, b, s)), Run(1.0, Outs(b, c, s)),
           Crossings(1.0, b, c, s), Run(2.0, Ins(b, c, s)), Run(2.0, Outs(c, a, s)), Crossings(2.0, c, a, s),
           Run(3.0, Ins(c, a, s)));
  }

  lemma Gather(p: seq<real>, x: seq<real>, q: seq<real>, r: seq<real>, y: seq<real>, t: seq<real>, u: seq<real>,
               z: seq<real>, v: seq<real>)
    ensures p + x + q + (r + y + t) + (u + z + v) == p + x + (q + r) + y + (t + u) + z + v
  {
  }

  /** Runs at the outer corners count once. */
  lemma RunsCountOnce(w: Wedge, o: nat, xs: seq<real>, n1: nat, ys: seq<real>, n2: nat, zs: seq<real>, m: nat)
    ensures SanitizeRing(Perimeters(w.a, w.b, w.c, Listed(o, xs, n1, ys, n2, zs, m)))
         == SanitizeRing(Run(w.a, o) + Perimeters(w.a, w.b, w.c, xs + Once(1.0, n1) + ys + Once(2.0, n2) + zs) + Run(w.a, m))
  {
    hide Perimeter, Run, Once, SanitizeRing, DropRepeats, Perimeters;
    var a, b, c := w.a, w.b, w.c;
    HubPerimeter(a, b, c);
    RunsPerimeter(a, b, c, 0.0, o);
    RunsPerimeter(a, b, c, 1.0, n1);
    RunsPerimeter(a, b, c, 2.0, n2);
    RunsPerimeter(a, b, c, 3.0, m);
    var x, y, z := Perimeters(a, b, c, xs), Perimeters(a, b, c, ys), Perimeters(a, b, c, zs);
    var pb, pc := Perimeter(a, b, c, 1.0), Perimeter(a, b, c, 2.0);
    SevenParts(a, b, c, Run(0.0, o), xs, Run(1.0, n1), ys, Run(2.0, n2), zs, Run(3.0, m));
    FiveParts(a, b, c, xs, Once(1.0, n1), ys, Once(2.0, n2), zs);
    var h, t := Run(a, o), Run(a, m);
    DropRun(h + x, pb, n1, y + Run(pc, n2) + z + t);
    DropRun(h + x + Once(pb, n1) + y, pc, n2, z + t);
    Join(h, x, Run(pb, n1), y, Run(pc, n2), z, t);
    Join(h, x, Once(pb, n1), y, Run(pc, n2), z, t);
    Join(h, x, Once(pb, n1), y, Once(pc, n2), z, t);
    SanitizeSame(h + x + Run(pb, n1) + y + Run(pc, n2) + z + t, h + (x + Once(pb, n1) + y + Once(pc, n2) + z) + t);
  }

  lemma Join(h: seq<Point2>, x: seq<Point2>, p: seq<Point2>, y: seq<Point2>, q: seq<Point2>, z: seq<Point2>, t: seq<Point2>)
    ensures h + x + p + (y + q + z + t) == h + x + p + y + q + z + t
    ensures h + x + p + y + q + (z + t) == h + x + p + y + q + z + t
    ensures h + (x + p + y + q + z) + t == h + x + p + y + q + z + t
  {
  }

  lemma FiveParts(a: Point2, b: Point2, c: Point2, x: seq<real>, p: seq<real>, y: seq<real>, q: seq<real>, z: seq<real>)
    ensures Perimeters(a, b, c, x + p + y + q + z) == Perimeters(a, b, c, x) + Perimeters(a, b, c, p)
            + Perimeters(a, b, c, y) + Perimeters(a, b, c, q) + Perimeters(a, b, c, z)
  {
    hide Perimeters;
    PerimetersConcat(a, b, c, x, p);
    PerimetersConcat(a, b, c, x + p, y);
    PerimetersConcat(a, b, c, x + p + y, q);
    PerimetersConcat(a, b, c, x + p + y + q, z);
  }

  lemma SevenParts(a: Point2, b: Point2, c: Point2, h: seq<real>, x: seq<real>, p: seq<real>, y: seq<real>, q: seq<real>,
                   z: seq<real>, t: seq<real>)
    ensures Perimeters(a, b, c, h + x + p + y + q + z + t) == Perimeters(a, b, c, h) + Perimeters(a, b, c, x)
            + Perimeters(a, b, c, p) + Perimeters(a, b, c, y) + Perimeters(a, b, c, q) + Perimeters(a, b, c, z)
            + Perimeters(a, b, c, t)
  {
    hide Perimeters;
    FiveParts(a, b, c, h, x, p, y, q);
    PerimetersConcat(a, b, c, h + x + p + y + q, z);
    PerimetersConcat(a, b, c, h + x + p + y + q + z, t);
  }

  // ---- the ring ----

  /** ring is core, or core started at its last vertex. */
  ghost predicate Turned(ring: seq<Point2>, core: seq<Point2>) {
    ring == core || (core != [] && ring == [core[|core| - 1]] + core[..|core| - 1])
  }

  /** The ring without the centre. */
  function Middle(a: real, b: real, c: real, s: Span): seq<real> {
    Crossings(0.0, a, b, s) + Stop(1.0, b, s) + Crossings(1.0, b, c, s) + Stop(2.0, c, s) + Crossings(2.0, c, a, s)
  }

  lemma CoreIsMiddle(a: real, b: real, c: real, s: Span)
    ensures Core(a, b, c, s) == Middle(a, b, c, s) + Stop(3.0, a, s)
  {
    hide Crossings, Stop;
    var x, p, y, q, z, t := Crossings(0.0, a, b, s), Stop(1.0, b, s), Crossings(1.0, b, c, s), Stop(2.0, c, s),
      Crossings(2.0, c, a, s), Stop(3.0, a, s);
    assert x + p + (y + q) + (z + t) == x + p + y + q + z + t;
  }

  lemma MiddleThere(a: real, b: real, c: real, s: Span)
    requires s.lo < s.hi && Filled(a, b, c, s)
    ensures Middle(a, b, c, s) != []
  {
    hide Ratio;
  }

  /** Sanitizing the clipped vertices leaves the ring. */
  lemma SanitizedIsCore(w: Wedge, s: Span)
    requires w.Proper(s) && w.Kept(s)
    ensures Turned(SanitizeRing(w.Raw(s)), w.CoreRing(s))
    ensures !Central(w.va, s) ==> SanitizeRing(w.Raw(s)) == w.CoreRing(s)
  {
    var a, b, c := w.va, w.vb, w.vc;
    MiddleThere(a, b, c, s);
    var n1, n2 := Ins(a, b, s) + Outs(b, c, s), Ins(b, c, s) + Outs(c, a, s);
    assert Once(1.0, n1) == Stop(1.0, b, s) && Once(2.0, n2) == Stop(2.0, c, s) by { CornersListed(a, b, c, s); }
    var o, m := Outs(a, b, s), Ins(c, a, s);
    assert if Central(a, s) then o + m > 0 else o == 0 && m == 0 by { CornersListed(a, b, c, s); }
    hide Perimeter, Positions, Core, Middle, SanitizeRing, Det, Filled, Ins, Outs, Crossings, Listed, Run, Perimeters, Once;
    PositionsListed(a, b, c, s);
    RunsCountOnce(w, o, Crossings(0.0, a, b, s), n1, Crossings(1.0, b, c, s), n2, Crossings(2.0, c, a, s), m);
    MiddleRing(w, s, o, m);
  }

  lemma CornersListed(a: real, b: real, c: real, s: Span)
    requires s.lo < s.hi && Filled(a, b, c, s)
    ensures Ins(a, b, s) + Outs(b, c, s) > 0 <==> Central(b, s)
    ensures Ins(b, c, s) + Outs(c, a, s) > 0 <==> Central(c, s)
    ensures Outs(a, b, s) + Ins(c, a, s) > 0 <==> Central(a, s)
  {
    PieceShape(0.0, a, b, s);
    PieceShape(1.0, b, c, s);
    PieceShape(2.0, c, a, s);
    assert !(s.Over(a) && s.Over(b) && s.Over(c));
    if Central(a, s) { CornerListed(c, a, b, s); }
    if Central(b, s) { CornerListed(a, b, c, s); }
    if Central(c, s) { CornerListed(b, c, a, s); }
  }

  lemma MiddleRing(w: Wedge, s: Span, o: nat, m: nat)
    requires w.Proper(s) && Middle(w.va, w.vb, w.vc, s) != []
    requires if Central(w.va, s) then o + m > 0 else o == 0 && m == 0
    ensures var middle := Perimeters(w.a, w.b, w.c, Middle(w.va, w.vb, w.vc, s));
      var ring := SanitizeRing(Run(w.a, o) + middle + Run(w.a, m));
      Turned(ring, w.CoreRing(s)) && (!Central(w.va, s) ==> ring == w.CoreRing(s))
  {
    var middle, core := Perimeters(w.a, w.b, w.c, Middle(w.va, w.vb, w.vc, s)), w.CoreRing(s);
    assert |middle| > 0;
    hide Perimeter, Core, Middle, SanitizeRing, Det, Perimeters;
    CoreRises(w.va, w.vb, w.vc, s);
    PerimetersDiffer(w.a, w.b, w.c, Core(w.va, w.vb, w.vc, s));
    CoreIsMiddle(w.va, w.vb, w.vc, s);
    if Central(w.va, s) {
      PerimetersConcat(w.a, w.b, w.c, Middle(w.va, w.vb, w.vc, s), [3.0]);
      RunsPerimeter(w.a, w.b, w.c, 3.0, 1);
      HubPerimeter(w.a, w.b, w.c);
      assert core == middle + [w.a];
      SanitizeHub(middle, w.a, o, m);
      assert core[..|core| - 1] == middle;
    } else {
      assert Middle(w.va, w.vb, w.vc, s) + [] == Middle(w.va, w.vb, w.vc, s);
      assert Run(w.a, o) + middle + Run(w.a, m) == middle;
      SanitizeNothing(middle);
    }
  }

  // ---- a band that only touches ----

  lemma TouchedCorners(a: real, b: real, c: real, s: Span)
    requires s.lo < s.hi && !Filled(a, b, c, s)
    ensures Crossings(0.0, a, b, s) == [] && Crossings(1.0, b, c, s) == [] && Crossings(2.0, c, a, s) == []
    ensures var n1, n2 := Ins(a, b, s) + Outs(b, c, s), Ins(b, c, s) + Outs(c, a, s);
      n1 == 0 || n2 == 0 || (Outs(a, b, s) == 0 && Ins(c, a, s) == 0)
  {
  }

  lemma {:induction false} DropShrinks(vs: seq<Point2>)
    ensures |DropRepeats(vs)| <= |vs|
    decreases |vs|
  {
    if |vs| > 1 { DropShrinks(vs[1..]); }
  }

  lemma SanitizeShrinks(vs: seq<Point2>)
    ensures |SanitizeRing(vs)| <= |vs|
  {
    DropShrinks(vs);
  }

  lemma SanitizeThere(x: Point2, y: Point2)
    ensures |SanitizeRing([x, y, x])| <= 2
  {
    assert [x, y, x][1..] == [y, x] && [y, x][1..] == [x];
    assert DropRepeats([y, x]) == if x == y then [x] else [y, x];
    assert DropRepeats([x, y, x]) == if x == y then [x] else [x, y, x];
  }

  lemma FewAround(points: seq<Point2>, hub: Point2, m: nat, n: nat)
    requires |points| <= 2 && (|points| == 2 ==> m == 0 && n == 0)
    ensures |SanitizeRing(Run(hub, m) + points + Run(hub, n))| <= 2
  {
    hide SanitizeRing, DropRepeats;
    var x, y, p, q := Run(hub, m), Run(hub, n), Once(hub, m), Once(hub, n);
    DropRun([], hub, m, points + y);
    DropRun(p + points, hub, n, []);
    Regroup(x, points, y);
    Regroup(p, points, y);
    Regroup(p, points, q);
    SanitizeSame(x + points + y, p + points + q);
    SanitizeShrinks(p + points + q);
    if |p + points + q| == 3 {
      assert p + points + q == [hub, points[0], hub];
      SanitizeThere(hub, points[0]);
    }
  }

  /** Then at most two vertices are left. */
  lemma TouchedIsShort(w: Wedge, s: Span)
    requires w.Proper(s) && !w.Kept(s)
    ensures |SanitizeRing(w.Raw(s))| <= 2
  {
    var a, b, c := w.va, w.vb, w.vc;
    var n1, n2, o, m := Ins(a, b, s) + Outs(b, c, s), Ins(b, c, s) + Outs(c, a, s), Outs(a, b, s), Ins(c, a, s);
    hide Ins, Outs, Crossings, Listed, Perimeters, Positions, Run, SanitizeRing, Filled, Det;
    TouchedCorners(a, b, c, s);
    PositionsListed(a, b, c, s);
    TouchedList(w, o, n1, n2, m);
  }

  lemma TouchedList(w: Wedge, o: nat, n1: nat, n2: nat, m: nat)
    requires n1 == 0 || n2 == 0 || (o == 0 && m == 0)
    ensures |SanitizeRing(Perimeters(w.a, w.b, w.c, Listed(o, [], n1, [], n2, [], m)))| <= 2
  {
    hide SanitizeRing, Listed, Run, Perimeter;
    RunsCountOnce(w, o, [], n1, [], n2, [], m);
    FewAround(Perimeters(w.a, w.b, w.c, [] + Once(1.0, n1) + [] + Once(2.0, n2) + []), w.a, o, m);
  }
}
