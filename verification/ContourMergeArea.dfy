/** What merging does to signed area: cancelled edges take none away, and a traced ring
    loses twice what its backward edges sweep. */
module ContourMergeArea {
  import opened ContourGeometry
  import opened ContourTrace
  import opened ContourMerge

  function Rev(e: Edge): Edge { Edge(e.b, e.a) }

  /** Twice the signed area an edge sweeps, seen from the origin. */
  function Sweep(e: Edge): real { Cross(e.a, e.b) }

  ghost function Total(edges: seq<Edge>, w: Edge -> real): real {
    if edges == [] then 0.0 else Total(edges[..|edges| - 1], w) + w(edges[|edges| - 1])
  }

  /** How often exactly this directed edge occurs. */
  ghost function Directed(edges: seq<Edge>, e: Edge): nat {
    if edges == [] then 0 else Directed(edges[..|edges| - 1], e) + if edges[|edges| - 1] == e then 1 else 0
  }

  lemma AppendCounts(edges: seq<Edge>, l: Edge, w: Edge -> real)
    ensures Total(edges + [l], w) == Total(edges, w) + w(l)
    ensures forall e :: Directed(edges + [l], e) == Directed(edges, e) + if l == e then 1 else 0
  {
    assert (edges + [l])[..|edges|] == edges;
  }

  lemma {:induction false} TotalConcat(s: seq<Edge>, t: seq<Edge>, w: Edge -> real)
    ensures Total(s + t, w) == Total(s, w) + Total(t, w)
  {
    if t == [] {
      assert s + t == s;
    } else {
      assert (s + t)[..|s + t| - 1] == s + t[..|t| - 1];
      TotalConcat(s, t[..|t| - 1], w);
    }
  }

  // ---- opposite edges cancel ----

  lemma SameKey(e: Edge, f: Edge)
    ensures Key(e) == Key(f) <==> e == f || e == Rev(f)
  {
  }

  lemma {:induction false} CountDirected(edges: seq<Edge>, e: Edge)
    requires e.a != e.b
    ensures Count(edges, Key(e)) == Directed(edges, e) + Directed(edges, Rev(e))
  {
    if edges != [] {
      hide Key;
      CountDirected(edges[..|edges| - 1], e);
      SameKey(edges[|edges| - 1], e);
    }
  }

  /** Every edge occurs as often as its reverse. */
  ghost predicate Balanced(edges: seq<Edge>) {
    forall e :: Directed(edges, e) == Directed(edges, Rev(e))
  }

  ghost predicate Antisymmetric(w: Edge -> real) { forall e :: w(Rev(e)) == -w(e) }

  /** n times x. */
  ghost function Times(n: nat, x: real): real { if n == 0 then 0.0 else Times(n - 1, x) + x }

  lemma {:induction false} OppositeTimes(n: nat, x: real, y: real)
    requires y == -x
    ensures Times(n, x) + Times(n, y) == 0.0
  {
    if n > 0 { OppositeTimes(n - 1, x, y); }
  }

  lemma {:induction false} WithoutTotal(edges: seq<Edge>, key: Edge, w: Edge -> real)
    requires Key(key) == key && key.a != key.b
    ensures Total(edges, w) == Total(Without(edges, key), w)
                             + Times(Directed(edges, key), w(key)) + Times(Directed(edges, Rev(key)), w(Rev(key)))
  {
    if edges != [] {
      hide Key;
      var front, last := edges[..|edges| - 1], edges[|edges| - 1];
      WithoutTotal(front, key, w);
      AppendCounts(Without(front, key), last, w);
      SameKey(last, key);
    }
  }

  lemma {:induction false} WithoutDirected(edges: seq<Edge>, key: Edge, e: Edge)
    requires Key(key) == key
    ensures Directed(Without(edges, key), e) == if Key(e) == key then 0 else Directed(edges, e)
  {
    if edges != [] {
      hide Key;
      var front, last := edges[..|edges| - 1], edges[|edges| - 1];
      WithoutDirected(front, key, e);
      AppendCounts(Without(front, key), last, Sweep);
    }
  }

  /** What changes sign with direction adds up to nothing over balanced edges. */
  lemma {:induction false} BalancedTotal(edges: seq<Edge>, w: Edge -> real)
    requires Balanced(edges) && LoopFree(edges) && Antisymmetric(w)
    ensures Total(edges, w) == 0.0
    decreases |edges|
  {
    if edges != [] {
      var last := edges[|edges| - 1];
      var key := Key(last);
      hide Key, Total, Without, Times, LoopFree;
      KeyOfKey(last);
      assert last.a != last.b by { LastLoopFree(edges); }
      var rest := Without(edges, key);
      WithoutTotal(edges, key, w);
      WithoutLast(edges, key);
      forall e ensures Directed(rest, e) == Directed(rest, Rev(e)) {
        SameKey(e, Rev(e));
        WithoutDirected(edges, key, e);
        WithoutDirected(edges, key, Rev(e));
      }
      WithoutLoopFree(edges, key);
      BalancedTotal(rest, w);
      assert Directed(edges, key) == Directed(edges, Rev(key)) && w(Rev(key)) == -w(key);
      OppositeTimes(Directed(edges, key), w(key), w(Rev(key)));
    }
  }

  lemma LastLoopFree(edges: seq<Edge>)
    requires LoopFree(edges) && edges != []
    ensures edges[|edges| - 1].a != edges[|edges| - 1].b
  {
  }

  lemma KeyOfKey(e: Edge)
    ensures Key(Key(e)) == Key(e) && (e.a != e.b ==> Key(e).a != Key(e).b)
  {
  }

  lemma {:induction false} WithoutShorter(edges: seq<Edge>, key: Edge)
    ensures |Without(edges, key)| <= |edges|
  {
    if edges != [] { WithoutShorter(edges[..|edges| - 1], key); }
  }

  lemma WithoutLast(edges: seq<Edge>, key: Edge)
    requires edges != [] && Key(edges[|edges| - 1]) == key
    ensures |Without(edges, key)| < |edges|
  {
    WithoutShorter(edges[..|edges| - 1], key);
  }

  lemma {:induction false} WithoutLoopFree(edges: seq<Edge>, key: Edge)
    requires LoopFree(edges)
    ensures LoopFree(Without(edges, key))
  {
    if edges != [] { WithoutLoopFree(edges[..|edges| - 1], key); }
  }

  /** Every edge that does not occur exactly once occurs as often in one direction as in
      the other. */
  ghost predicate DirectionsCancel(edges: seq<Edge>) {
    forall e :: Count(edges, Key(e)) != 1 ==> Directed(edges, e) == Directed(edges, Rev(e))
  }

  lemma {:induction false} SinglesTotal(edges: seq<Edge>, all: seq<Edge>, w: Edge -> real)
    ensures Total(edges, w) == Total(Singles(edges, all, true), w) + Total(Singles(edges, all, false), w)
    ensures forall e :: Directed(Singles(edges, all, false), e) == if Count(all, Key(e)) == 1 then 0 else Directed(edges, e)
  {
    if edges != [] {
      hide Key, Count;
      var front, last := edges[..|edges| - 1], edges[|edges| - 1];
      SinglesTotal(front, all, w);
      AppendCounts(Singles(front, all, true), last, w);
      AppendCounts(Singles(front, all, false), last, w);
    }
  }

  lemma {:induction false} SinglesLoopFree(edges: seq<Edge>, all: seq<Edge>, once: bool)
    requires LoopFree(edges)
    ensures LoopFree(Singles(edges, all, once))
  {
    if edges != [] {
      hide Count, Key;
      SinglesLoopFree(edges[..|edges| - 1], all, once);
    }
  }

  /** Dropping shared edges takes nothing away from an antisymmetric total. */
  lemma BoundaryTotal(edges: seq<Edge>, w: Edge -> real)
    requires DirectionsCancel(edges) && LoopFree(edges) && Antisymmetric(w)
    ensures Total(Singles(edges, edges, true), w) == Total(edges, w)
  {
    hide Singles, Key, Count, Total;
    var shared := Singles(edges, edges, false);
    SinglesTotal(edges, edges, w);
    SinglesLoopFree(edges, edges, false);
    forall e ensures Directed(shared, e) == Directed(shared, Rev(e)) {
      SameKey(e, Rev(e));
      assert Count(edges, Key(e)) != 1 ==> Directed(edges, e) == Directed(edges, Rev(e));
    }
    BalancedTotal(shared, w);
  }

  lemma CancelMeansEven(edges: seq<Edge>)
    requires DirectionsCancel(edges) && LoopFree(edges)
    ensures NoOddRepeats(edges)
  {
    forall key ensures Count(edges, key) == 1 || Count(edges, key) % 2 == 0 {
      if key.a == key.b || Key(key) != key {
        NotAKey(edges, key);
      } else {
        CountDirected(edges, key);
        assert Count(edges, Key(key)) != 1 ==> Directed(edges, key) == Directed(edges, Rev(key));
      }
    }
  }

  lemma {:induction false} NotAKey(edges: seq<Edge>, key: Edge)
    requires LoopFree(edges) && (key.a == key.b || Key(key) != key)
    ensures Count(edges, key) == 0
  {
    if edges != [] {
      KeyOfKey(edges[|edges| - 1]);
      NotAKey(edges[..|edges| - 1], key);
    }
  }

  // ---- the area of rings ----

  ghost function RingsArea(rings: seq<seq<Point2>>): real {
    if rings == [] then 0.0 else RingsArea(rings[..|rings| - 1]) + Area(rings[|rings| - 1])
  }

  lemma RingsAreaAppend(rings: seq<seq<Point2>>, ring: seq<Point2>)
    ensures RingsArea(rings + [ring]) == RingsArea(rings) + Area(ring)
  {
    assert (rings + [ring])[..|rings|] == rings;
  }

  lemma {:induction false} PathEdgesTotal(pen: Point2, vs: seq<Point2>)
    ensures Total(PathEdges(pen, vs), Sweep) == PathSum(pen, vs)
  {
    hide Cross;
    if vs != [] {
      var n := |vs| - 1;
      var front, from := vs[..n], if n == 0 then pen else vs[n - 1];
      PathEdgesTotal(pen, front);
      assert vs == front + [vs[n]];
      PathSumAppend(pen, front, vs[n]);
      AppendCounts(PathEdges(pen, front), Edge(from, vs[n]), Sweep);
    }
  }

  lemma RingEdgesTotal(ring: seq<Point2>)
    requires ring != []
    ensures Total(RingEdges(ring), Sweep) == LoopSum(ring)
  {
    PathEdgesTotal(ring[0], ring[1..] + [ring[0]]);
    LoopSumFromFirst(ring);
  }

  lemma SanitizedArea(vs: seq<Point2>)
    ensures Area(SanitizeRing(vs)) == Area(vs)
  {
    hide SanitizeRing, LoopSum;
    SanitizeKeepsLoop(vs);
    AreaIsHalfLoop(vs);
    AreaIsHalfLoop(SanitizeRing(vs));
  }

  lemma {:induction false} FragmentEdgesTotal(fragments: seq<seq<Point2>>)
    ensures Total(FragmentEdges(fragments), Sweep) * 0.5 == RingsArea(fragments)
  {
    if fragments != [] {
      hide SanitizeRing, LoopSum, RingEdges;
      var n := |fragments| - 1;
      var front, ring := fragments[..n], SanitizeRing(fragments[n]);
      FragmentEdgesTotal(front);
      SanitizedArea(fragments[n]);
      var own := if |ring| < 3 then [] else RingEdges(ring);
      TotalConcat(FragmentEdges(front), own, Sweep);
      if |ring| >= 3 { RingEdgesTotal(ring); }
    }
  }

  lemma {:induction false} FragmentEdgesLoopFree(fragments: seq<seq<Point2>>)
    ensures LoopFree(FragmentEdges(fragments))
  {
    hide SanitizeRing, PathEdges;
    if fragments != [] {
      var n := |fragments| - 1;
      var ring := SanitizeRing(fragments[n]);
      FragmentEdgesLoopFree(fragments[..n]);
      if |ring| >= 3 {
        var own := RingEdges(ring);
        RingEdgesAt(ring, 0);
        forall i | 0 <= i < |own| ensures own[i].a != own[i].b {
          RingEdgesAt(ring, i);
          SanitizedDistinct(fragments[n], i);
        }
      }
    }
  }

  function NextIndex(i: nat, n: nat): nat { if i + 1 == n then 0 else i + 1 }

  /** Edge i of a ring runs from vertex i to the next. */
  lemma RingEdgesAt(ring: seq<Point2>, i: nat)
    requires i < |ring|
    ensures |RingEdges(ring)| == |ring|
    ensures RingEdges(ring)[i].a == ring[i] && RingEdges(ring)[i].b == ring[NextIndex(i, |ring|)]
  {
    hide PathEdges;
    PathEdgesAt(ring[0], ring[1..] + [ring[0]], i);
  }

  lemma {:induction false} PathEdgesAt(pen: Point2, vs: seq<Point2>, i: nat)
    requires i < |vs|
    ensures |PathEdges(pen, vs)| == |vs|
    ensures PathEdges(pen, vs)[i].b == vs[i] && PathEdges(pen, vs)[i].a == if i == 0 then pen else vs[i - 1]
  {
    var n := |vs| - 1;
    if i < n {
      PathEdgesAt(pen, vs[..n], i);
    } else if n > 0 {
      PathEdgesAt(pen, vs[..n], 0);
    } else {
      assert PathEdges(pen, vs[..0]) == [];
    }
  }

  ghost function LoopSums(rings: seq<seq<Point2>>): real {
    if rings == [] then 0.0 else LoopSum(rings[0]) + LoopSums(rings[1..])
  }

  /** Keeping only rings with area keeps all the area. */
  lemma {:induction false} KeptArea(rings: seq<seq<Point2>>)
    ensures RingsArea(Kept(rings)) == RingsArea(rings)
  {
    if rings != [] {
      hide SanitizeRing, Area;
      var n := |rings| - 1;
      KeptArea(rings[..n]);
      SanitizedArea(rings[n]);
      ShortRing(SanitizeRing(rings[n]));
      RingsAreaAppend(Kept(rings[..n]), SanitizeRing(rings[n]));
    }
  }

  lemma ShortRing(ring: seq<Point2>)
    ensures |ring| < 3 ==> Area(ring) == 0.0
  {
  }

  // ---- the sums of a walk ----

  /** What the edges not yet used sweep, over the first n. */
  ghost function Left(edges: seq<Edge>, used: seq<bool>, n: nat): real
    requires n <= |edges| == |used|
  {
    if n == 0 then 0.0 else Left(edges, used, n - 1) + if used[n - 1] then 0.0 else Sweep(edges[n - 1])
  }

  lemma {:induction false} MarkLeft(edges: seq<Edge>, used: seq<bool>, i: nat, n: nat)
    requires n <= |edges| == |used| && i < |edges| && !used[i]
    ensures Left(edges, used[i := true], n) == Left(edges, used, n) - if i < n then Sweep(edges[i]) else 0.0
    decreases n
  {
    hide Sweep;
    if n > 0 { MarkLeft(edges, used, i, n - 1); }
  }

  lemma {:induction false} AllLeft(edges: seq<Edge>, used: seq<bool>, n: nat)
    requires n <= |edges| == |used| && forall i :: 0 <= i < n ==> !used[i]
    ensures Left(edges, used, n) == Total(edges[..n], Sweep)
  {
    if n > 0 {
      AllLeft(edges, used, n - 1);
      assert edges[..n][..n - 1] == edges[..n - 1];
    }
  }

  lemma {:induction false} NothingLeft(edges: seq<Edge>, used: seq<bool>, n: nat)
    requires n <= |edges| == |used| && forall i :: 0 <= i < n ==> used[i]
    ensures Left(edges, used, n) == 0.0
  {
    if n > 0 { NothingLeft(edges, used, n - 1); }
  }

  /** Step k goes against the direction of its edge. */
  ghost predicate GoesBack(edges: seq<Edge>, ring: seq<Point2>, trail: seq<nat>, k: nat)
    requires k < |trail| && k < |ring| && trail[k] < |edges|
  {
    edges[trail[k]].a != ring[k]
  }

  /** What the edges walked backwards in the first n steps sweep. */
  ghost function BackwardIn(edges: seq<Edge>, ring: seq<Point2>, trail: seq<nat>, n: nat): real
    requires IsTrail(edges, ring, trail) && n <= |trail|
  {
    if n == 0 then 0.0
    else
      var last := if GoesBack(edges, ring, trail, n - 1) then Sweep(edges[trail[n - 1]]) else 0.0;
      BackwardIn(edges, ring, trail, n - 1) + last
  }

  ghost function Backward(edges: seq<Edge>, t: Trip): real {
    if IsTrail(edges, t.ring, t.trail) then BackwardIn(edges, t.ring, t.trail, |t.trail|) else 0.0
  }

  ghost function BackwardSum(edges: seq<Edge>, trips: seq<Trip>): real {
    if trips == [] then 0.0 else Backward(edges, trips[0]) + BackwardSum(edges, trips[1..])
  }

  lemma {:induction false} BackwardExtends(edges: seq<Edge>, t: Trip, u: Trip, n: nat)
    requires IsTrail(edges, t.ring, t.trail) && IsTrail(edges, u.ring, u.trail)
    requires t.ring <= u.ring && t.trail <= u.trail && n <= |t.trail|
    ensures BackwardIn(edges, t.ring, t.trail, n) == BackwardIn(edges, u.ring, u.trail, n)
  {
    if n > 0 { BackwardExtends(edges, t, u, n - 1); }
  }

  ghost function OpenSum(ring: seq<Point2>): real
    requires ring != []
  {
    PathSum(ring[0], ring[1..])
  }

  lemma OpenSumAppend(ring: seq<Point2>, p: Point2)
    requires ring != []
    ensures OpenSum(ring + [p]) == OpenSum(ring) + Cross(ring[|ring| - 1], p)
  {
    assert (ring + [p])[1..] == ring[1..] + [p];
    PathSumAppend(ring[0], ring[1..], p);
  }

  lemma ClosedSum(ring: seq<Point2>)
    requires ring != [] && ring[0] == ring[|ring| - 1]
    ensures LoopSum(ring) == OpenSum(ring)
  {
    CrossSelf(ring[0]);
  }

  /** The walk has swept what it used up, less twice what it went back along. */
  ghost predicate SumsUp(edges: seq<Edge>, before: seq<bool>, t: Trip)
    requires |edges| == |before| == |t.used| && t.ring != []
  {
    OpenSum(t.ring) + Left(edges, t.used, |edges|) == Left(edges, before, |edges|) - 2.0 * Backward(edges, t)
  }

  lemma SumsUpStarts(edges: seq<Edge>, before: seq<bool>, first: nat)
    requires |edges| == |before| && first < |edges| && !before[first]
    ensures SumsUp(edges, before, Depart(edges, before, first))
  {
    var t := Depart(edges, before, first);
    MarkLeft(edges, before, first, |edges|);
    var a, b := edges[first].a, edges[first].b;
    assert t.ring[1..] == [b] && [b][1..] == [];
    assert PathSum(a, [b]) == Cross(a, b);
    assert IsTrail(edges, t.ring, t.trail) && !GoesBack(edges, t.ring, t.trail, 0);
    assert BackwardIn(edges, t.ring, t.trail, 1) == BackwardIn(edges, t.ring, t.trail, 0) + 0.0;
  }

  lemma SumsUpSteps(edges: seq<Edge>, before: seq<bool>, t: Trip, i: nat)
    requires Walking(edges, before, t) && SumsUp(edges, before, t)
    requires i < |edges| && !t.used[i] && Ends(edges[i], Here(t)) > 0
    ensures SumsUp(edges, before, Onward(edges, t, i))
  {
    hide Left, BackwardIn, WalkParity;
    var u, n := Onward(edges, t, i), |t.trail|;
    OnwardIsTrail(edges, before, t, i);
    MarkLeft(edges, t.used, i, |edges|);
    OpenSumAppend(t.ring, OtherEnd(edges[i], Here(t)));
    BackwardExtends(edges, t, u, n);
    LastStep(edges, u);
    SweepBack(edges[i]);
  }

  lemma OnwardIsTrail(edges: seq<Edge>, before: seq<bool>, t: Trip, i: nat)
    requires Walking(edges, before, t) && i < |edges| && Ends(edges[i], Here(t)) > 0
    ensures |t.used| == |edges| && IsTrail(edges, t.ring, t.trail)
    ensures IsTrail(edges, Onward(edges, t, i).ring, Onward(edges, t, i).trail)
    ensures t.ring <= Onward(edges, t, i).ring && t.trail <= Onward(edges, t, i).trail
  {
  }

  lemma LastStep(edges: seq<Edge>, u: Trip)
    requires IsTrail(edges, u.ring, u.trail) && |u.trail| > 0
    ensures var n := |u.trail| - 1;
            BackwardIn(edges, u.ring, u.trail, n + 1) == BackwardIn(edges, u.ring, u.trail, n)
            + if GoesBack(edges, u.ring, u.trail, n) then Sweep(edges[u.trail[n]]) else 0.0
  {
  }

  lemma SweepBack(e: Edge)
    ensures Cross(e.b, e.a) == -Cross(e.a, e.b)
  {
  }

  lemma {:induction false} WalkSums(edges: seq<Edge>, before: seq<bool>, t: Trip)
    requires Walking(edges, before, t) && SumsUp(edges, before, t)
    ensures var r := WalkOn(edges, t); r.ring != [] ==> SumsUp(edges, before, r)
    decreases UnusedCount(t.used)
  {
    hide SumsUp, WalkParity;
    if Here(t) != t.ring[0] {
      var next := FirstFree(edges, t.used, Here(t), 0);
      if next.Some? {
        MarkUnusedCount(t.used, next.value);
        SumsUpSteps(edges, before, t, next.value);
        WalkingSteps(edges, before, t, next.value);
        WalkSums(edges, before, Onward(edges, t, next.value));
      }
    }
  }

  /** All walks together. */
  lemma {:induction false} TraceSums(edges: seq<Edge>, used: seq<bool>, first: nat)
    requires first <= |edges| == |used| && forall i :: 0 <= i < first ==> used[i]
    requires NoneCleared(TraceFrom(edges, used, first))
    ensures var trips := TraceFrom(edges, used, first);
            LoopSums(RingsOf(trips)) == Left(edges, used, |edges|) - 2.0 * BackwardSum(edges, trips)
    decreases |edges| - first
  {
    hide WalkOn, Left, Backward, NoneCleared, IsClosedTrail, SameParity, SomeOdd, LoopSum;
    if first == |edges| {
      NothingLeft(edges, used, |edges|);
    } else if used[first] {
      TraceSums(edges, used, first + 1);
    } else {
      var d := Depart(edges, used, first);
      var t := WalkOn(edges, d);
      WalkingStarts(edges, used, first);
      WalkEnds(edges, used, d);
      SumsUpStarts(edges, used, first);
      WalkSums(edges, used, d);
      assert d.trail[0] == first && t.trail[0] == first;
      var rest := TraceFrom(edges, t.used, first + 1);
      TripsCons(edges, t, rest);
      assert ([t] + rest)[1..] == rest;
      TraceSums(edges, t.used, first + 1);
      ClosedWalk(edges, t);
      assert ([t.ring] + RingsOf(rest))[1..] == RingsOf(rest);
    }
  }

  lemma ClosedWalk(edges: seq<Edge>, t: Trip)
    requires IsClosedTrail(edges, t.ring, t.trail)
    ensures t.ring != [] && LoopSum(t.ring) == OpenSum(t.ring)
  {
    ClosedSum(t.ring);
  }

  lemma {:induction false} LoopSumsArea(rings: seq<seq<Point2>>)
    ensures LoopSums(rings) * 0.5 == RingsArea(rings)
  {
    if rings != [] {
      hide LoopSum, Area;
      var n := |rings| - 1;
      LoopSumsArea(rings[..n]);
      LoopSumsLast(rings);
      AreaIsHalfLoop(rings[n]);
    }
  }

  lemma {:induction false} LoopSumsLast(rings: seq<seq<Point2>>)
    requires rings != []
    ensures LoopSums(rings) == LoopSums(rings[..|rings| - 1]) + LoopSum(rings[|rings| - 1])
  {
    hide LoopSum;
    if |rings| > 1 {
      LoopSumsLast(rings[1..]);
      assert rings[1..][..|rings| - 2] == rings[..|rings| - 1][1..];
    } else {
      assert rings[1..] == [] && rings[..0] == [];
    }
  }

  lemma SweepAntisymmetric()
    ensures Antisymmetric(Sweep)
  {
  }

  /** The merged polygons have the area of the fragments, less what the edges that the
      tracer walked backwards sweep. So merging keeps the area exactly when those sweep
      nothing in all. */
  lemma MergedAreaExact(fragments: seq<seq<Point2>>)
    requires DirectionsCancel(FragmentEdges(fragments))
    ensures var lost := BackwardSum(Boundary(fragments), Trace(Boundary(fragments)));
      && RingsArea(Merged(fragments)) == RingsArea(fragments) - lost
      && (RingsArea(Merged(fragments)) == RingsArea(fragments) <==> lost == 0.0)
  {
    hide *;
    var edges, boundary := FragmentEdges(fragments), Boundary(fragments);
    FragmentEdgesLoopFree(fragments);
    CancelMeansEven(edges);
    MergeTracesBoundary(fragments);
    SweepAntisymmetric();
    BoundaryTotal(edges, Sweep);
    BoundaryIs(fragments);
    FragmentEdgesTotal(fragments);
    TraceArea(boundary);
    MergedIs(fragments);
    KeptArea(RingsOf(Trace(boundary)));
  }

  lemma BoundaryIs(fragments: seq<seq<Point2>>)
    ensures Boundary(fragments) == Singles(FragmentEdges(fragments), FragmentEdges(fragments), true)
  {
  }

  lemma MergedIs(fragments: seq<seq<Point2>>)
    ensures Merged(fragments) == Kept(RingsOf(Trace(Boundary(fragments))))
  {
  }

  lemma TraceArea(edges: seq<Edge>)
    requires NoneCleared(Trace(edges))
    ensures RingsArea(RingsOf(Trace(edges))) == Total(edges, Sweep) * 0.5 - BackwardSum(edges, Trace(edges))
  {
    hide TraceFrom, RingsOf, BackwardSum, LoopSums, RingsArea, NoneCleared, Left;
    var unused := Unused(|edges|);
    TraceSums(edges, unused, 0);
    AllLeft(edges, unused, |edges|);
    assert edges[..|edges|] == edges;
    LoopSumsArea(RingsOf(Trace(edges)));
  }
}
