/** When the tracer never walks an edge backwards, and so loses no area. */
module ContourMergeForward {
  import opened ContourGeometry
  import opened ContourTrace
  import opened ContourMerge
  import opened ContourMergeArea

  /** No two edges lead to the same point. */
  ghost predicate SingleTargets(edges: seq<Edge>) {
    forall i, j :: 0 <= i < j < |edges| ==> edges[i].b != edges[j].b
  }

  /** The walk has only gone forward so far. */
  ghost predicate Forward(edges: seq<Edge>, t: Trip) {
    && IsTrail(edges, t.ring, t.trail) && |t.trail| > 0
    && Backward(edges, t) == 0.0 && edges[t.trail[|t.trail| - 1]].b == Here(t)
  }

  lemma ForwardStarts(edges: seq<Edge>, used: seq<bool>, first: nat)
    requires first < |edges| == |used|
    ensures Forward(edges, Depart(edges, used, first))
  {
    var t := Depart(edges, used, first);
    assert IsTrail(edges, t.ring, t.trail) && !GoesBack(edges, t.ring, t.trail, 0);
    assert BackwardIn(edges, t.ring, t.trail, 1) == BackwardIn(edges, t.ring, t.trail, 0) + 0.0;
  }

  lemma ForwardSteps(edges: seq<Edge>, before: seq<bool>, t: Trip, i: nat)
    requires Walking(edges, before, t) && Forward(edges, t)
    requires i < |edges| && edges[i].a == Here(t)
    ensures Forward(edges, Onward(edges, t, i))
  {
    hide BackwardIn, WalkParity;
    var u := Onward(edges, t, i);
    OnwardIsTrail(edges, before, t, i);
    BackwardExtends(edges, t, u, |t.trail|);
    LastStep(edges, u);
    assert !GoesBack(edges, u.ring, u.trail, |t.trail|);
  }

  /** Where no two edges lead to the same point, the one the walk came by is the only one
      it could go back along. */
  lemma {:induction false} WalksForward(edges: seq<Edge>, before: seq<bool>, t: Trip)
    requires SingleTargets(edges) && Walking(edges, before, t) && Forward(edges, t)
    ensures var r := WalkOn(edges, t); r.ring != [] ==> Backward(edges, r) == 0.0
    decreases UnusedCount(t.used)
  {
    hide Backward, WalkParity;
    if Here(t) != t.ring[0] {
      var next := FirstFree(edges, t.used, Here(t), 0);
      if next.Some? {
        var i, last := next.value, t.trail[|t.trail| - 1];
        LastIsUsed(edges, before, t);
        assert edges[i].b != Here(t);
        MarkUnusedCount(t.used, i);
        ForwardSteps(edges, before, t, i);
        WalkingSteps(edges, before, t, i);
        WalksForward(edges, before, Onward(edges, t, i));
      }
    }
  }

  lemma LastIsUsed(edges: seq<Edge>, before: seq<bool>, t: Trip)
    requires Walking(edges, before, t)
    ensures t.trail[|t.trail| - 1] < |t.used| && t.used[t.trail[|t.trail| - 1]]
  {
    assert t.trail[|t.trail| - 1] in t.trail;
  }

  lemma {:induction false} TracesForward(edges: seq<Edge>, used: seq<bool>, first: nat)
    requires first <= |edges| == |used|
    requires SingleTargets(edges) && NoneCleared(TraceFrom(edges, used, first))
    ensures BackwardSum(edges, TraceFrom(edges, used, first)) == 0.0
    decreases |edges| - first
  {
    hide WalkOn, Backward, NoneCleared, SingleTargets;
    if first < |edges| {
      if used[first] {
        TracesForward(edges, used, first + 1);
      } else {
        var d := Depart(edges, used, first);
        var t := WalkOn(edges, d);
        WalkingStarts(edges, used, first);
        ForwardStarts(edges, used, first);
        WalksForward(edges, used, d);
        var rest := TraceFrom(edges, t.used, first + 1);
        TripsCons(edges, t, rest);
        assert ([t] + rest)[1..] == rest;
        TracesForward(edges, t.used, first + 1);
      }
    }
  }

  /** Merging keeps the area of fragments whose boundary never leads twice to a point. */
  lemma SingleTargetsKeepArea(fragments: seq<seq<Point2>>)
    requires DirectionsCancel(FragmentEdges(fragments)) && SingleTargets(Boundary(fragments))
    ensures RingsArea(Merged(fragments)) == RingsArea(fragments)
  {
    hide *;
    FragmentEdgesLoopFree(fragments);
    CancelMeansEven(FragmentEdges(fragments));
    MergeTracesBoundary(fragments);
    MergedAreaExact(fragments);
    TraceIsForward(Boundary(fragments));
  }

  lemma TraceIsForward(edges: seq<Edge>)
    requires SingleTargets(edges) && NoneCleared(Trace(edges))
    ensures BackwardSum(edges, Trace(edges)) == 0.0
  {
    TracesForward(edges, Unused(|edges|), 0);
  }

  // ---- boundaries of degree two ----

  ghost function Inward(edges: seq<Edge>, v: Point2): nat {
    if edges == [] then 0 else Inward(edges[..|edges| - 1], v) + if edges[|edges| - 1].b == v then 1 else 0
  }

  /** Edges into v count one, edges out of v minus one. */
  function Flux(v: Point2): Edge -> real {
    (e: Edge) => (if e.b == v then 1.0 else 0.0) - (if e.a == v then 1.0 else 0.0)
  }

  lemma {:induction false} FluxIs(edges: seq<Edge>, v: Point2)
    ensures Total(edges, Flux(v)) == (2 * Inward(edges, v) - Degree(edges, v)) as real
  {
    if edges != [] { FluxIs(edges[..|edges| - 1], v); }
  }

  lemma {:induction false} PathFlux(pen: Point2, vs: seq<Point2>, v: Point2)
    ensures Total(PathEdges(pen, vs), Flux(v))
         == (if (if vs == [] then pen else vs[|vs| - 1]) == v then 1.0 else 0.0) - (if pen == v then 1.0 else 0.0)
  {
    if vs != [] {
      var n := |vs| - 1;
      PathFlux(pen, vs[..n], v);
      AppendCounts(PathEdges(pen, vs[..n]), Edge(if n == 0 then pen else vs[n - 1], vs[n]), Flux(v));
    }
  }

  /** Closed rings lead into a point as often as out of it. */
  lemma {:induction false} FragmentsFlux(fragments: seq<seq<Point2>>, v: Point2)
    ensures Total(FragmentEdges(fragments), Flux(v)) == 0.0
  {
    hide SanitizeRing, PathEdges, Flux;
    if fragments != [] {
      var n := |fragments| - 1;
      var front, ring := fragments[..n], SanitizeRing(fragments[n]);
      FragmentsFlux(front, v);
      var own := if |ring| < 3 then [] else RingEdges(ring);
      TotalConcat(FragmentEdges(front), own, Flux(v));
      if |ring| >= 3 { PathFlux(ring[0], ring[1..] + [ring[0]], v); }
    }
  }

  lemma FluxAntisymmetric(v: Point2)
    ensures Antisymmetric(Flux(v))
  {
  }

  lemma {:induction false} InwardCounts(edges: seq<Edge>, i: nat, j: nat)
    requires i < j < |edges| && edges[i].b == edges[j].b
    ensures Inward(edges, edges[i].b) >= 2
  {
    var n := |edges| - 1;
    if j < n { InwardCounts(edges[..n], i, j); } else { InwardOnce(edges[..n], i); }
  }

  lemma {:induction false} InwardOnce(edges: seq<Edge>, i: nat)
    requires i < |edges|
    ensures Inward(edges, edges[i].b) >= 1
  {
    if i < |edges| - 1 { InwardOnce(edges[..|edges| - 1], i); }
  }

  ghost function Outward(edges: seq<Edge>, v: Point2): nat {
    if edges == [] then 0 else Outward(edges[..|edges| - 1], v) + if edges[|edges| - 1].a == v then 1 else 0
  }

  lemma {:induction false} DegreeSplits(edges: seq<Edge>, v: Point2)
    ensures Degree(edges, v) == Inward(edges, v) + Outward(edges, v)
  {
    if edges != [] { DegreeSplits(edges[..|edges| - 1], v); }
  }

  lemma {:induction false} OutwardCounts(edges: seq<Edge>, i: nat, j: nat)
    requires i < j < |edges| && edges[i].a == edges[j].a
    ensures Outward(edges, edges[i].a) >= 2
  {
    var n := |edges| - 1;
    if j < n { OutwardCounts(edges[..n], i, j); } else { OutwardOnce(edges[..n], i); }
  }

  lemma {:induction false} OutwardOnce(edges: seq<Edge>, i: nat)
    requires i < |edges|
    ensures Outward(edges, edges[i].a) >= 1
  {
    if i < |edges| - 1 { OutwardOnce(edges[..|edges| - 1], i); }
  }

  /** At most one edge leads to v and at most one away. */
  ghost predicate OnceThrough(edges: seq<Edge>, v: Point2) {
    && (forall i, j :: 0 <= i < j < |edges| && edges[i].b == v ==> edges[j].b != v)
    && (forall i, j :: 0 <= i < j < |edges| && edges[i].a == v ==> edges[j].a != v)
  }

  /** Where as many edges lead in as out, one in is one out. */
  lemma OnceInOnceOut(edges: seq<Edge>, v: Point2)
    requires Inward(edges, v) <= 1 && Total(edges, Flux(v)) == 0.0
    ensures OnceThrough(edges, v)
  {
    hide Inward, Outward, Flux;
    FluxIs(edges, v);
    DegreeSplits(edges, v);
    forall i, j | 0 <= i < j < |edges| && edges[i].b == v ensures edges[j].b != v {
      if edges[j].b == v { InwardCounts(edges, i, j); }
    }
    forall i, j | 0 <= i < j < |edges| && edges[i].a == v ensures edges[j].a != v {
      if edges[j].a == v { OutwardCounts(edges, i, j); }
    }
  }

  lemma FewInward(edges: seq<Edge>)
    requires forall v :: Inward(edges, v) <= 1
    ensures SingleTargets(edges)
  {
    forall i, j | 0 <= i < j < |edges| ensures edges[i].b != edges[j].b {
      assert Inward(edges, edges[i].b) <= 1;
      if edges[i].b == edges[j].b { InwardCounts(edges, i, j); }
    }
  }

  /** When no boundary vertex has more than two edges, merging keeps the area. */
  lemma DegreeTwoKeepsArea(fragments: seq<seq<Point2>>)
    requires DirectionsCancel(FragmentEdges(fragments))
    requires forall v :: Degree(Boundary(fragments), v) <= 2
    ensures RingsArea(Merged(fragments)) == RingsArea(fragments)
  {
    hide FragmentEdges, Merged, RingsArea, Boundary, Inward, Degree, Flux, DirectionsCancel;
    var edges, boundary := FragmentEdges(fragments), Boundary(fragments);
    FragmentEdgesLoopFree(fragments);
    BoundaryIs(fragments);
    forall v ensures Inward(boundary, v) <= 1 {
      FragmentsFlux(fragments, v);
      FluxAntisymmetric(v);
      BoundaryTotal(edges, Flux(v));
      FluxIs(boundary, v);
      assert Degree(boundary, v) <= 2;
    }
    FewInward(boundary);
    SingleTargetsKeepArea(fragments);
  }
}
