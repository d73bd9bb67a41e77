/** Merging the fragments of a bin: shared edges cancel, and the remaining boundary
    is traced into rings. Points stand for their own keys. */
module ContourMerge {
  import opened Basics
  import opened ContourGeometry
  import opened ContourTrace

  // ---- cancelling shared edges ----

  /** An edge up to direction: its lexicographically smaller end first. */
  function Key(e: Edge): Edge {
    if e.a.x < e.b.x || (e.a.x == e.b.x && e.a.y <= e.b.y) then e else Edge(e.b, e.a)
  }

  ghost function Count(edges: seq<Edge>, key: Edge): nat {
    if edges == [] then 0 else Count(edges[..|edges| - 1], key) + if Key(edges[|edges| - 1]) == key then 1 else 0
  }

  ghost function Without(edges: seq<Edge>, key: Edge): seq<Edge> {
    if edges == [] then []
    else
      var rest, last := Without(edges[..|edges| - 1], key), edges[|edges| - 1];
      if Key(last) == key then rest else rest + [last]
  }

  lemma DegreeAppend(edges: seq<Edge>, e: Edge, v: Point2)
    ensures Degree(edges + [e], v) == Degree(edges, v) + Ends(e, v)
    ensures forall key :: Count(edges + [e], key) == Count(edges, key) + if Key(e) == key then 1 else 0
  {
    assert (edges + [e])[..|edges|] == edges;
  }

  lemma {:induction false} WithoutSplits(edges: seq<Edge>, key: Edge, v: Point2)
    ensures Degree(edges, v) == Degree(Without(edges, key), v) + Count(edges, key) * Ends(key, v)
    ensures |Without(edges, key)| == |edges| - Count(edges, key)
  {
    if edges != [] {
      var front, last := edges[..|edges| - 1], edges[|edges| - 1];
      WithoutSplits(front, key, v);
      DegreeAppend(Without(front, key), last, v);
      assert Ends(Key(last), v) == Ends(last, v);
      hide Key, Ends;
      OnceMore(Count(front, key), Ends(key, v));
    }
  }

  lemma OnceMore(n: nat, x: nat)
    ensures (n + 1) * x == n * x + x
  {
  }

  lemma {:induction false} WithoutCount(edges: seq<Edge>, key: Edge, k: Edge)
    ensures Count(Without(edges, key), k) == if k == key then 0 else Count(edges, k)
  {
    if edges != [] {
      hide Key;
      var front, last := edges[..|edges| - 1], edges[|edges| - 1];
      WithoutCount(front, key, k);
      assert (Without(front, key) + [last])[..|Without(front, key)|] == Without(front, key);
    }
  }

  lemma EvenMultiple(c: nat, k: nat)
    requires c % 2 == 0
    ensures (c * k) % 2 == 0
  {
    var h := c / 2;
    assert c * k == 2 * (h * k);
  }

  /** If every undirected edge occurs an even number of times, so does every end. */
  lemma {:induction false} EvenEdgesEvenDegree(edges: seq<Edge>, v: Point2)
    requires forall key :: Count(edges, key) % 2 == 0
    ensures Degree(edges, v) % 2 == 0
    decreases |edges|
  {
    if edges != [] {
      var key := Key(edges[|edges| - 1]);
      WithoutSplits(edges, key, v);
      forall k ensures Count(Without(edges, key), k) % 2 == 0 { WithoutCount(edges, key, k); }
      EvenEdgesEvenDegree(Without(edges, key), v);
      EvenMultiple(Count(edges, key), Ends(key, v));
    }
  }

  /** The edges among `edges` that occur once (or not once) in `all`. */
  ghost function Singles(edges: seq<Edge>, all: seq<Edge>, once: bool): seq<Edge> {
    if edges == [] then []
    else
      var rest, last := Singles(edges[..|edges| - 1], all, once), edges[|edges| - 1];
      if (Count(all, Key(last)) == 1) == once then rest + [last] else rest
  }

  lemma {:induction false} SinglesSplit(edges: seq<Edge>, all: seq<Edge>, v: Point2)
    ensures Degree(edges, v) == Degree(Singles(edges, all, true), v) + Degree(Singles(edges, all, false), v)
    ensures forall k :: Count(Singles(edges, all, false), k) == if Count(all, k) == 1 then 0 else Count(edges, k)
  {
    if edges != [] {
      var front, last := edges[..|edges| - 1], edges[|edges| - 1];
      SinglesSplit(front, all, v);
      DegreeAppend(Singles(front, all, true), last, v);
      DegreeAppend(Singles(front, all, false), last, v);
    }
  }

  /** No undirected edge occurs three, five, ... times. */
  ghost predicate NoOddRepeats(edges: seq<Edge>) {
    forall key :: Count(edges, key) == 1 || Count(edges, key) % 2 == 0
  }

  /** Cancelling shared edges keeps every degree even. */
  lemma BoundaryIsEven(edges: seq<Edge>)
    requires AllEven(edges) && NoOddRepeats(edges)
    ensures AllEven(Singles(edges, edges, true))
  {
    forall v ensures Degree(Singles(edges, edges, true), v) % 2 == 0 {
      SinglesSplit(edges, edges, v);
      EvenEdgesEvenDegree(Singles(edges, edges, false), v);
      assert Degree(edges, v) % 2 == 0;
    }
  }

  // ---- the edges of closed rings ----

  /** The edges pen -> vs[0] -> vs[1] -> ... */
  ghost function PathEdges(pen: Point2, vs: seq<Point2>): seq<Edge> {
    if vs == [] then []
    else PathEdges(pen, vs[..|vs| - 1]) + [Edge(if |vs| == 1 then pen else vs[|vs| - 2], vs[|vs| - 1])]
  }

  lemma {:induction false} PathDegree(pen: Point2, vs: seq<Point2>, v: Point2)
    ensures (Degree(PathEdges(pen, vs), v)
             + (if pen == v then 1 else 0) + (if (if vs == [] then pen else vs[|vs| - 1]) == v then 1 else 0)) % 2 == 0
  {
    if vs != [] {
      var front := vs[..|vs| - 1];
      PathDegree(pen, front, v);
      DegreeAppend(PathEdges(pen, front), Edge(if |vs| == 1 then pen else vs[|vs| - 2], vs[|vs| - 1]), v);
    }
  }

  lemma {:induction false} DegreeConcat(s: seq<Edge>, t: seq<Edge>, v: Point2)
    ensures Degree(s + t, v) == Degree(s, v) + Degree(t, v)
  {
    if t == [] {
      assert s + t == s;
    } else {
      assert (s + t)[..|s + t| - 1] == s + t[..|t| - 1];
      DegreeConcat(s, t[..|t| - 1], v);
    }
  }

  lemma {:induction false} DropRepeatsDistinct(vs: seq<Point2>, i: nat)
    requires i + 1 < |DropRepeats(vs)|
    ensures DropRepeats(vs)[i] != DropRepeats(vs)[i + 1]
  {
    var rest := DropRepeats(vs[1..]);
    if SamePoint(vs[0], vs[1]) {
      DropRepeatsDistinct(vs[1..], i);
    } else if i > 0 {
      DropRepeatsDistinct(vs[1..], i - 1);
    } else {
      assert rest[0] == vs[1];
    }
  }

  /** Neighbours around a sanitized ring differ, across the seam too. */
  lemma SanitizedDistinct(vs: seq<Point2>, i: nat)
    requires |SanitizeRing(vs)| >= 2 && i < |SanitizeRing(vs)|
    ensures SanitizeRing(vs)[i] != SanitizeRing(vs)[if i + 1 == |SanitizeRing(vs)| then 0 else i + 1]
  {
    var d := DropRepeats(vs);
    if i + 1 < |d| { DropRepeatsDistinct(vs, i); }
  }

  /** The closed ring as edges, in order. */
  ghost function RingEdges(ring: seq<Point2>): seq<Edge>
    requires ring != []
  {
    PathEdges(ring[0], ring[1..] + [ring[0]])
  }

  /** The edges of every fragment that keeps three vertices. */
  ghost function FragmentEdges(fragments: seq<seq<Point2>>): seq<Edge> {
    if fragments == [] then []
    else
      var ring := SanitizeRing(fragments[|fragments| - 1]);
      FragmentEdges(fragments[..|fragments| - 1]) + if |ring| < 3 then [] else RingEdges(ring)
  }

  lemma DegreeNone()
    ensures forall v :: Degree([], v) == 0
  {
  }

  lemma {:induction false} FragmentEdgesEven(fragments: seq<seq<Point2>>)
    ensures AllEven(FragmentEdges(fragments))
  {
    hide SanitizeRing, Degree, PathEdges;
    DegreeNone();
    if fragments != [] {
      var front, ring := fragments[..|fragments| - 1], SanitizeRing(fragments[|fragments| - 1]);
      FragmentEdgesEven(front);
      if |ring| >= 3 {
        forall v ensures Degree(FragmentEdges(fragments), v) % 2 == 0 {
          DegreeConcat(FragmentEdges(front), RingEdges(ring), v);
          PathDegree(ring[0], ring[1..] + [ring[0]], v);
          assert Degree(FragmentEdges(front), v) % 2 == 0;
        }
      } else {
        assert FragmentEdges(fragments) == FragmentEdges(front);
      }
    }
  }

  lemma PathEdgesAppend(pen: Point2, vs: seq<Point2>, p: Point2)
    ensures PathEdges(pen, vs + [p]) == PathEdges(pen, vs) + [Edge(if vs == [] then pen else vs[|vs| - 1], p)]
  {
    assert (vs + [p])[..|vs|] == vs;
  }

  /** The edges of one sanitized ring, appended to those collected so far. */
  method AddRingEdges(edges: seq<Edge>, fragment: seq<Point2>, ring: seq<Point2>) returns (out: seq<Edge>)
    requires LoopFree(edges) && ring == SanitizeRing(fragment) && |ring| >= 3
    ensures out == edges + RingEdges(ring) && LoopFree(out)
  {
    hide SanitizeRing, PathEdges;
    out := edges;
    ghost var wrapped := ring[1..] + [ring[0]];
    PathEdgesNone(ring[0]);
    for index := 0 to |ring|
      invariant out == edges + PathEdges(ring[0], wrapped[..index]) && LoopFree(out)
    {
      var start, end := ring[index], ring[if index + 1 == |ring| then 0 else index + 1];
      SanitizedDistinct(fragment, index);
      assert wrapped[..index + 1] == wrapped[..index] + [end];
      PathEdgesAppend(ring[0], wrapped[..index], end);
      if !SamePoint(start, end) {
        out := out + [Edge(start, end)];
      }
    }
    assert wrapped[..|ring|] == wrapped;
  }

  lemma PathEdgesNone(pen: Point2)
    ensures PathEdges(pen, []) == []
  {
  }

  method CollectEdges(fragments: seq<seq<Point2>>) returns (edges: seq<Edge>)
    ensures edges == FragmentEdges(fragments) && LoopFree(edges)
  {
    edges := [];
    for f := 0 to |fragments|
      invariant edges == FragmentEdges(fragments[..f]) && LoopFree(edges)
    {
      var ring := Sanitize(fragments[f]);
      assert fragments[..f + 1][..f] == fragments[..f];
      if |ring| >= 3 {
        edges := AddRingEdges(edges, fragments[f], ring);
      } else {
        assert FragmentEdges(fragments[..f + 1]) == FragmentEdges(fragments[..f]) + [];
      }
    }
    assert fragments[..|fragments|] == fragments;
  }

  method CountEdges(edges: seq<Edge>) returns (counts: map<Edge, nat>)
    ensures forall i :: 0 <= i < |edges| ==> Key(edges[i]) in counts
    ensures forall key :: key in counts ==> counts[key] == Count(edges, key)
  {
    counts := map[];
    for i := 0 to |edges|
      invariant forall j :: 0 <= j < i ==> Key(edges[j]) in counts
      invariant forall key :: Count(edges[..i], key) == if key in counts then counts[key] else 0
    {
      var key := Key(edges[i]);
      assert edges[..i + 1][..i] == edges[..i];
      counts := counts[key := (if key in counts then counts[key] else 0) + 1];
    }
    assert edges[..|edges|] == edges;
  }

  /** The edges that occur once. */
  method BoundaryEdges(edges: seq<Edge>) returns (boundary: seq<Edge>)
    requires LoopFree(edges)
    ensures boundary == Singles(edges, edges, true) && LoopFree(boundary)
  {
    var counts := CountEdges(edges);
    boundary := [];
    for i := 0 to |edges|
      invariant boundary == Singles(edges[..i], edges, true) && LoopFree(boundary)
    {
      assert edges[..i + 1][..i] == edges[..i];
      if counts[Key(edges[i])] == 1 {
        boundary := boundary + [edges[i]];
      }
    }
    assert edges[..|edges|] == edges;
  }

  /** The rings kept as polygons: at least three vertices and some area. */
  ghost function Kept(rings: seq<seq<Point2>>): seq<seq<Point2>> {
    if rings == [] then []
    else
      var front, ring := Kept(rings[..|rings| - 1]), SanitizeRing(rings[|rings| - 1]);
      if |ring| >= 3 && Abs(Area(ring)) > GEOMETRY_EPSILON then front + [ring] else front
  }

  /** What remains of the fragments' edges when shared ones cancel. */
  ghost function Boundary(fragments: seq<seq<Point2>>): seq<Edge> {
    Singles(FragmentEdges(fragments), FragmentEdges(fragments), true)
  }

  ghost function Merged(fragments: seq<seq<Point2>>): seq<seq<Point2>> {
    Kept(RingsOf(Trace(Boundary(fragments))))
  }

  /** Merge fragments into polygons: shared edges cancel, the rest is traced. */
  method MergeFragments(fragments: seq<seq<Point2>>) returns (polygons: seq<seq<Point2>>)
    ensures polygons == Merged(fragments)
  {
    hide FragmentEdges, Singles, Trace, RingsOf;
    var edges := CollectEdges(fragments);
    var boundary := BoundaryEdges(edges);
    var rings := TraceRings(boundary);
    polygons := [];
    for r := 0 to |rings|
      invariant polygons == Kept(rings[..r])
    {
      assert rings[..r + 1][..r] == rings[..r];
      var ring := Sanitize(rings[r]);
      if |ring| >= 3 {
        var area := SignedArea(ring);
        if Abs(area) > GEOMETRY_EPSILON {
          polygons := polygons + [ring];
        }
      }
    }
    assert rings[..|rings|] == rings;
  }

  /** The trace uses every boundary edge exactly once, its rings are closed trails, and
      it loses none exactly when every boundary vertex has even degree; so it loses
      none when every edge occurs once or an even number of times. */
  lemma MergeTracesBoundary(fragments: seq<seq<Point2>>)
    ensures var boundary := Boundary(fragments);
      var trips := Trace(boundary);
      && NoRepeats(TrailsOf(trips)) && (forall i: nat :: i in TrailsOf(trips) <==> i < |boundary|)
      && AllClosed(boundary, trips) && (NoneCleared(trips) <==> AllEven(boundary))
      && (NoOddRepeats(FragmentEdges(fragments)) ==> NoneCleared(trips))
  {
    hide AllEven, AllClosed, NoneCleared, NoRepeats, Trace, TrailsOf, FragmentEdges, Singles, NoOddRepeats;
    TraceExact(Boundary(fragments));
    FragmentEdgesEven(fragments);
    if NoOddRepeats(FragmentEdges(fragments)) { BoundaryIsEven(FragmentEdges(fragments)); }
  }
}
