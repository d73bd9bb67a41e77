/** Tracing closed rings through a set of boundary edges. */
module ContourTrace {
  import opened Basics
  import opened ContourGeometry

  datatype Edge = Edge(a: Point2, b: Point2)

  /** How many ends of e lie at v. */
  function Ends(e: Edge, v: Point2): nat {
    (if e.a == v then 1 else 0) + (if e.b == v then 1 else 0)
  }

  ghost function Degree(edges: seq<Edge>, v: Point2): nat {
    if edges == [] then 0 else Degree(edges[..|edges| - 1], v) + Ends(edges[|edges| - 1], v)
  }

  ghost predicate AllEven(edges: seq<Edge>) {
    forall v :: Degree(edges, v) % 2 == 0
  }

  /** Degree of v in the edges not yet used, over the first n. */
  ghost function FreeDegree(edges: seq<Edge>, used: seq<bool>, n: nat, v: Point2): nat
    requires n <= |edges| == |used|
  {
    if n == 0 then 0
    else FreeDegree(edges, used, n - 1, v) + if used[n - 1] then 0 else Ends(edges[n - 1], v)
  }

  ghost function Free(edges: seq<Edge>, used: seq<bool>, v: Point2): nat
    requires |edges| == |used|
  {
    FreeDegree(edges, used, |edges|, v)
  }

  ghost function UnusedCount(used: seq<bool>): nat {
    if used == [] then 0 else UnusedCount(used[..|used| - 1]) + if used[|used| - 1] then 0 else 1
  }

  lemma {:induction false} MarkFreeDegree(edges: seq<Edge>, used: seq<bool>, i: nat, n: nat, v: Point2)
    requires n <= |edges| == |used| && i < |edges| && !used[i]
    ensures FreeDegree(edges, used[i := true], n, v) ==
            FreeDegree(edges, used, n, v) - if i < n then Ends(edges[i], v) else 0
    decreases n
  {
    if n > 0 { MarkFreeDegree(edges, used, i, n - 1, v); }
  }

  lemma {:induction false} MarkUnusedCount(used: seq<bool>, i: nat)
    requires i < |used| && !used[i]
    ensures UnusedCount(used[i := true]) == UnusedCount(used) - 1
  {
    var last := |used| - 1;
    if i < last {
      MarkUnusedCount(used[..last], i);
      assert used[i := true][..last] == used[..last][i := true];
    } else {
      assert used[i := true][..last] == used[..last];
    }
  }

  lemma {:induction false} NoneUsedDegree(edges: seq<Edge>, used: seq<bool>, n: nat, v: Point2)
    requires n <= |edges| == |used| && forall i :: 0 <= i < n ==> !used[i]
    ensures FreeDegree(edges, used, n, v) == Degree(edges[..n], v)
  {
    if n > 0 {
      NoneUsedDegree(edges, used, n - 1, v);
      assert edges[..n][..n - 1] == edges[..n - 1];
    }
  }

  lemma {:induction false} AllUsedDegree(edges: seq<Edge>, used: seq<bool>, n: nat, v: Point2)
    requires n <= |edges| == |used| && forall i :: 0 <= i < n ==> used[i]
    ensures FreeDegree(edges, used, n, v) == 0
  {
    if n > 0 { AllUsedDegree(edges, used, n - 1, v); }
  }

  /** A vertex of positive free degree has an unused edge. */
  lemma {:induction false} FreeEdgeExists(edges: seq<Edge>, used: seq<bool>, n: nat, v: Point2) returns (i: nat)
    requires n <= |edges| == |used| && FreeDegree(edges, used, n, v) > 0
    ensures i < n && !used[i] && Ends(edges[i], v) > 0
  {
    if !used[n - 1] && Ends(edges[n - 1], v) > 0 {
      i := n - 1;
    } else {
      i := FreeEdgeExists(edges, used, n - 1, v);
    }
  }

  // ---- adjacency ----

  type Adjacency = map<Point2, seq<nat>>

  function Neighbors(adjacency: Adjacency, v: Point2): seq<nat> {
    if v in adjacency then adjacency[v] else []
  }

  predicate Listed(adjacency: Adjacency, v: Point2, i: nat) { i in Neighbors(adjacency, v) }

  ghost predicate Rising(s: seq<nat>) {
    forall i, j :: 0 <= i < j < |s| ==> s[i] <= s[j]
  }

  /** adjacency lists exactly the first n edges at each of their ends, in order. */
  ghost predicate Lists(adjacency: Adjacency, edges: seq<Edge>, n: nat)
    requires n <= |edges|
  {
    && (forall v, i: nat :: Listed(adjacency, v, i) <==> i < n && Ends(edges[i], v) > 0)
    && forall v :: Rising(Neighbors(adjacency, v))
  }

  function AddNeighbor(adjacency: Adjacency, v: Point2, i: nat): Adjacency {
    adjacency[v := Neighbors(adjacency, v) + [i]]
  }

  lemma AddNeighborLists(adjacency: Adjacency, v: Point2, i: nat, w: Point2, j: nat)
    ensures Listed(AddNeighbor(adjacency, v, i), w, j) <==> Listed(adjacency, w, j) || (w == v && j == i)
  {
  }

  lemma AddNeighborRises(adjacency: Adjacency, v: Point2, i: nat, w: Point2)
    requires Rising(Neighbors(adjacency, w)) && forall j: nat :: Listed(adjacency, w, j) ==> j <= i
    ensures Rising(Neighbors(AddNeighbor(adjacency, v, i), w))
  {
    assert forall k :: 0 <= k < |Neighbors(adjacency, w)| ==> Listed(adjacency, w, Neighbors(adjacency, w)[k]);
  }

  method BuildAdjacency(edges: seq<Edge>) returns (adjacency: Adjacency)
    ensures Lists(adjacency, edges, |edges|)
  {
    hide Rising, Neighbors, AddNeighbor, Listed;
    adjacency := map[];
    NothingListed();
    for i := 0 to |edges|
      invariant Lists(adjacency, edges, i)
    {
      ghost var before := adjacency;
      adjacency := AddNeighbor(adjacency, edges[i].a, i);
      ghost var middle := adjacency;
      adjacency := AddNeighbor(adjacency, edges[i].b, i);
      forall v, j: nat ensures Listed(adjacency, v, j) <==> j < i + 1 && Ends(edges[j], v) > 0 {
        AddNeighborLists(before, edges[i].a, i, v, j);
        AddNeighborLists(middle, edges[i].b, i, v, j);
      }
      forall v ensures Rising(Neighbors(adjacency, v)) {
        forall j: nat | Listed(middle, v, j) ensures j <= i { AddNeighborLists(before, edges[i].a, i, v, j); }
        AddNeighborRises(before, edges[i].a, i, v);
        AddNeighborRises(middle, edges[i].b, i, v);
      }
    }
  }

  lemma NothingListed()
    ensures forall v, i: nat :: !Listed(map[], v, i)
    ensures forall v :: Rising(Neighbors(map[], v))
  {
  }

  /** The first candidate not yet used. */
  method FindUnused(candidates: seq<nat>, used: array<bool>) returns (at: nat)
    requires forall k :: 0 <= k < |candidates| ==> candidates[k] < used.Length
    ensures at <= |candidates| && forall m :: 0 <= m < at ==> used[candidates[m]]
    ensures at < |candidates| ==> !used[candidates[at]]
  {
    at := 0;
    while at < |candidates| && used[candidates[at]]
      invariant at <= |candidates| && forall m :: 0 <= m < at ==> used[candidates[m]]
    {
      at := at + 1;
    }
  }

  // ---- trails ----

  ghost predicate Joins(e: Edge, p: Point2, q: Point2) {
    (e.a == p && e.b == q) || (e.b == p && e.a == q)
  }

  /** ring walks along the edges listed in trail, one step per edge. */
  ghost predicate IsTrail(edges: seq<Edge>, ring: seq<Point2>, trail: seq<nat>) {
    && |ring| == |trail| + 1
    && (forall k :: 0 <= k < |trail| ==> trail[k] < |edges|)
    && forall k :: 0 <= k < |trail| ==> Joins(edges[trail[k]], ring[k], ring[k + 1])
  }

  ghost predicate IsClosedTrail(edges: seq<Edge>, ring: seq<Point2>, trail: seq<nat>) {
    IsTrail(edges, ring, trail) && |trail| > 0 && ring[0] == ring[|ring| - 1]
  }

  /** used was before, plus the edges of the trail, each of them once. */
  ghost predicate Consumed(before: seq<bool>, used: seq<bool>, trail: seq<nat>) {
    && |used| == |before|
    && NoRepeats(trail)
    && (forall k :: 0 <= k < |trail| ==> trail[k] < |before| && !before[trail[k]])
    && forall i :: 0 <= i < |used| ==> (used[i] <==> before[i] || i in trail)
  }

  ghost predicate LoopFree(edges: seq<Edge>) {
    forall i :: 0 <= i < |edges| ==> edges[i].a != edges[i].b
  }

  /** Walking from start to current has flipped the parity of exactly those two. */
  ghost predicate WalkParity(edges: seq<Edge>, before: seq<bool>, used: seq<bool>, start: Point2, current: Point2)
    requires |edges| == |before| == |used|
  {
    forall v :: (Free(edges, before, v) + Free(edges, used, v)
                 + (if v == start then 1 else 0) + (if v == current then 1 else 0)) % 2 == 0
  }

  lemma WalkParityStep(edges: seq<Edge>, before: seq<bool>, used: seq<bool>, start: Point2, current: Point2,
                       i: nat, next: Point2)
    requires |edges| == |before| == |used| && WalkParity(edges, before, used, start, current)
    requires i < |edges| && !used[i] && Joins(edges[i], current, next)
    ensures WalkParity(edges, before, used[i := true], start, next)
  {
    forall v ensures (Free(edges, before, v) + Free(edges, used[i := true], v)
                      + (if v == start then 1 else 0) + (if v == next then 1 else 0)) % 2 == 0
    {
      MarkFreeDegree(edges, used, i, |edges|, v);
      assert (Free(edges, before, v) + Free(edges, used, v)
              + (if v == start then 1 else 0) + (if v == current then 1 else 0)) % 2 == 0;
    }
  }

  lemma ConsumedStep(before: seq<bool>, used: seq<bool>, trail: seq<nat>, i: nat)
    requires Consumed(before, used, trail) && i < |used| && !used[i]
    ensures Consumed(before, used[i := true], trail + [i])
  {
    var t, u := trail + [i], used[i := true];
    assert t[|trail|] == i;
    forall j | 0 <= j < |u| ensures u[j] <==> before[j] || j in t {
      if j in trail { var k :| 0 <= k < |trail| && trail[k] == j; assert t[k] == j; }
    }
  }

  /** Stuck at current away from the start: current had odd degree to begin with. */
  lemma StuckIsOdd(edges: seq<Edge>, before: seq<bool>, used: seq<bool>, start: Point2, current: Point2)
    requires |edges| == |before| == |used| && WalkParity(edges, before, used, start, current)
    requires start != current
    requires forall i :: 0 <= i < |edges| && Ends(edges[i], current) > 0 ==> used[i]
    ensures Free(edges, before, current) % 2 == 1
  {
    if Free(edges, used, current) > 0 {
      var i := FreeEdgeExists(edges, used, |edges|, current);
      assert false;
    }
    assert (Free(edges, before, current) + Free(edges, used, current) + 0 + 1) % 2 == 0;
  }

  // ---- the walk ----

  /** The lowest unused edge at v, searching from index `from`. */
  ghost function FirstFree(edges: seq<Edge>, used: seq<bool>, v: Point2, from: nat): (found: Option<nat>)
    requires |edges| == |used| && from <= |edges|
    ensures found.Some? ==> from <= found.value < |edges| && !used[found.value] && Ends(edges[found.value], v) > 0
    ensures forall j :: from <= j < (if found.Some? then found.value else |edges|) && Ends(edges[j], v) > 0 ==> used[j]
    decreases |edges| - from
  {
    if from == |edges| then None
    else if !used[from] && Ends(edges[from], v) > 0 then Some(from)
    else FirstFree(edges, used, v, from + 1)
  }

  lemma FirstFreeIs(edges: seq<Edge>, used: seq<bool>, v: Point2, i: nat)
    requires |edges| == |used| && i < |edges| && !used[i] && Ends(edges[i], v) > 0
    requires forall j :: 0 <= j < i && Ends(edges[j], v) > 0 ==> used[j]
    ensures FirstFree(edges, used, v, 0) == Some(i)
  {
  }

  /** The lowest unused edge at current. */
  method NextEdge(edges: seq<Edge>, adjacency: Adjacency, used: array<bool>, current: Point2) returns (found: Option<nat>)
    requires used.Length == |edges| && Lists(adjacency, edges, |edges|)
    ensures found == FirstFree(edges, used[..], current, 0)
  {
    hide FirstFree;
    var candidates := Neighbors(adjacency, current);
    assert forall k :: 0 <= k < |candidates| ==> Listed(adjacency, current, candidates[k]);
    var at := FindUnused(candidates, used);
    if at == |candidates| {
      forall i | 0 <= i < |edges| && Ends(edges[i], current) > 0 ensures used[i] {
        assert Listed(adjacency, current, i);
      }
      return None;
    }
    var i := candidates[at];
    forall j | 0 <= j < i && Ends(edges[j], current) > 0 ensures used[j] {
      assert Listed(adjacency, current, j);
      var k :| 0 <= k < |candidates| && candidates[k] == j;
      assert Rising(candidates);
      assert k < at;
    }
    FirstFreeIs(edges, used[..], current, i);
    return Some(i);
  }

  /** A walk: its points, the edges it went along, and all edges used up by now. A walk
      that got stuck has no points left. */
  datatype Trip = Trip(ring: seq<Point2>, trail: seq<nat>, used: seq<bool>)

  function OtherEnd(e: Edge, v: Point2): Point2 { if e.a == v then e.b else e.a }

  function Here(t: Trip): Point2
    requires t.ring != []
  {
    t.ring[|t.ring| - 1]
  }

  /** One more step, along edge i. */
  function Onward(edges: seq<Edge>, t: Trip, i: nat): Trip
    requires t.ring != [] && i < |edges| == |t.used|
  {
    Trip(t.ring + [OtherEnd(edges[i], Here(t))], t.trail + [i], t.used[i := true])
  }

  /** Start along edge `first`. */
  function Depart(edges: seq<Edge>, used: seq<bool>, first: nat): Trip
    requires first < |edges| == |used|
  {
    Trip([edges[first].a, edges[first].b], [first], used[first := true])
  }

  /** Walk on along lowest unused edges until back at the start or stuck. */
  ghost function WalkOn(edges: seq<Edge>, t: Trip): (r: Trip)
    requires t.ring != [] && |edges| == |t.used|
    ensures |r.used| == |edges|
    decreases UnusedCount(t.used)
  {
    if Here(t) == t.ring[0] then t
    else
      var next := FirstFree(edges, t.used, Here(t), 0);
      if next.None? then Trip([], t.trail, t.used)
      else
        MarkUnusedCount(t.used, next.value);
        WalkOn(edges, Onward(edges, t, next.value))
  }

  /** What holds all along a walk that began when `before` was used up. */
  ghost predicate Walking(edges: seq<Edge>, before: seq<bool>, t: Trip) {
    && |edges| == |before| && Consumed(before, t.used, t.trail)
    && IsTrail(edges, t.ring, t.trail) && |t.trail| > 0
    && WalkParity(edges, before, t.used, t.ring[0], Here(t))
  }

  lemma WalkingStarts(edges: seq<Edge>, before: seq<bool>, first: nat)
    requires |edges| == |before| && first < |edges| && !before[first]
    ensures Walking(edges, before, Depart(edges, before, first))
  {
    WalkParityStep(edges, before, before, edges[first].a, edges[first].a, first, edges[first].b);
    ConsumedStep(before, before, [], first);
    assert [] + [first] == [first];
  }

  lemma WalkingSteps(edges: seq<Edge>, before: seq<bool>, t: Trip, i: nat)
    requires Walking(edges, before, t) && i < |edges| && !t.used[i] && Ends(edges[i], Here(t)) > 0
    ensures Walking(edges, before, Onward(edges, t, i))
  {
    hide WalkParity;
    WalkParityStep(edges, before, t.used, t.ring[0], Here(t), i, OtherEnd(edges[i], Here(t)));
    ConsumedStep(before, t.used, t.trail, i);
  }

  /** The walk has used up edges without changing the parity of any vertex. */
  ghost predicate SameParity(edges: seq<Edge>, before: seq<bool>, used: seq<bool>)
    requires |edges| == |before| == |used|
  {
    forall v :: (Free(edges, before, v) + Free(edges, used, v)) % 2 == 0
  }

  lemma WalkingCloses(edges: seq<Edge>, before: seq<bool>, used: seq<bool>, start: Point2)
    requires |edges| == |before| == |used| && WalkParity(edges, before, used, start, start)
    ensures SameParity(edges, before, used)
  {
    forall v ensures (Free(edges, before, v) + Free(edges, used, v)) % 2 == 0 {
      assert (Free(edges, before, v) + Free(edges, used, v)
              + (if v == start then 1 else 0) + (if v == start then 1 else 0)) % 2 == 0;
    }
  }

  ghost predicate SomeOdd(edges: seq<Edge>, used: seq<bool>)
    requires |edges| == |used|
  {
    exists v :: Free(edges, used, v) % 2 == 1
  }

  /** A walk uses each edge once; it comes back as a closed trail, or it proves that some
      vertex had odd degree. */
  lemma {:induction false} WalkEnds(edges: seq<Edge>, before: seq<bool>, t: Trip)
    requires Walking(edges, before, t)
    ensures var r := WalkOn(edges, t);
      && Consumed(before, r.used, r.trail) && t.trail <= r.trail
      && (r.ring != [] ==> IsClosedTrail(edges, r.ring, r.trail) && SameParity(edges, before, r.used))
      && (r.ring == [] ==> SomeOdd(edges, before))
    decreases UnusedCount(t.used)
  {
    hide WalkParity, SameParity;
    if Here(t) == t.ring[0] {
      WalkingCloses(edges, before, t.used, t.ring[0]);
    } else {
      var next := FirstFree(edges, t.used, Here(t), 0);
      if next.None? {
        StuckIsOdd(edges, before, t.used, t.ring[0], Here(t));
      } else {
        MarkUnusedCount(t.used, next.value);
        WalkingSteps(edges, before, t, next.value);
        WalkEnds(edges, before, Onward(edges, t, next.value));
      }
    }
  }

  /** Follow unused edges from edge `first` until the walk is back at its start; a
      walk that gets stuck returns no ring. */
  method WalkRing(edges: seq<Edge>, adjacency: Adjacency, used: array<bool>, first: nat) returns (ring: seq<Point2>)
    requires used.Length == |edges| && first < |edges| && !used[first]
    requires LoopFree(edges) && Lists(adjacency, edges, |edges|)
    modifies used
    ensures var r := WalkOn(edges, Depart(edges, old(used[..]), first));
            ring == r.ring && used[..] == r.used
  {
    hide Lists;
    ghost var goal := WalkOn(edges, Depart(edges, used[..], first));
    var start := edges[first].a;
    var current := edges[first].b;
    ring := [start, current];
    ghost var trail := [first];
    ghost var before := used[..];
    used[first] := true;
    assert used[..] == before[first := true];
    while current != start
      invariant |ring| > 1 && ring[0] == start && ring[|ring| - 1] == current
      invariant WalkOn(edges, Trip(ring, trail, used[..])) == goal
      decreases UnusedCount(used[..])
    {
      var found := NextEdge(edges, adjacency, used, current);
      if found.None? {
        return [];
      }
      var i := found.value;
      var next := if edges[i].a == current then edges[i].b else edges[i].a;
      ghost var now := used[..];
      MarkUnusedCount(now, i);
      used[i] := true;
      assert used[..] == now[i := true];
      if !SamePoint(current, next) {
        ring := ring + [next];
      }
      trail := trail + [i];
      current := next;
    }
  }

  // ---- all walks ----

  /** The walks from every edge not used before it, from edge `first` on. */
  ghost function TraceFrom(edges: seq<Edge>, used: seq<bool>, first: nat): seq<Trip>
    requires first <= |edges| == |used|
    decreases |edges| - first
  {
    if first == |edges| then []
    else if used[first] then TraceFrom(edges, used, first + 1)
    else
      var t := WalkOn(edges, Depart(edges, used, first));
      [t] + TraceFrom(edges, t.used, first + 1)
  }

  function Unused(n: nat): seq<bool> { seq(n, _ => false) }

  ghost function Trace(edges: seq<Edge>): seq<Trip> { TraceFrom(edges, Unused(|edges|), 0) }

  ghost function RingsOf(trips: seq<Trip>): seq<seq<Point2>> {
    if trips == [] then [] else [trips[0].ring] + RingsOf(trips[1..])
  }

  ghost function TrailsOf(trips: seq<Trip>): seq<nat> {
    if trips == [] then [] else trips[0].trail + TrailsOf(trips[1..])
  }

  ghost predicate NoneCleared(trips: seq<Trip>) {
    forall r :: 0 <= r < |trips| ==> trips[r].ring != []
  }

  ghost predicate AllClosed(edges: seq<Edge>, trips: seq<Trip>) {
    forall r :: 0 <= r < |trips| && trips[r].ring != [] ==> IsClosedTrail(edges, trips[r].ring, trips[r].trail)
  }

  ghost predicate AllUsed(used: seq<bool>) { forall i :: 0 <= i < |used| ==> used[i] }

  lemma ConsumedThen(b: seq<bool>, u: seq<bool>, w: seq<bool>, s: seq<nat>, t: seq<nat>)
    requires Consumed(b, u, s) && Consumed(u, w, t)
    ensures Consumed(b, w, s + t)
  {
    var st := s + t;
    forall i, j | 0 <= i < j < |st| ensures st[i] != st[j] {
      if i < |s| <= j {
        assert st[i] in s && u[st[i]];
      }
    }
    forall i | 0 <= i < |w| ensures w[i] <==> b[i] || i in st {
      if i in s { var k :| 0 <= k < |s| && s[k] == i; assert st[k] == i; }
      if i in t { var k :| 0 <= k < |t| && t[k] == i; assert st[|s| + k] == i; }
    }
  }

  lemma ParityCarries(edges: seq<Edge>, before: seq<bool>, used: seq<bool>)
    requires |edges| == |before| == |used| && SameParity(edges, before, used)
    ensures SomeOdd(edges, before) <==> SomeOdd(edges, used)
  {
    forall v ensures Free(edges, before, v) % 2 == 1 <==> Free(edges, used, v) % 2 == 1 {
      assert (Free(edges, before, v) + Free(edges, used, v)) % 2 == 0;
    }
  }

  /** From here on every edge is used once, rings are closed, and a ring is cleared
      exactly when some vertex has an odd number of unused edges. */
  lemma {:induction false} TraceEnds(edges: seq<Edge>, used: seq<bool>, first: nat) returns (end: seq<bool>)
    requires first <= |edges| == |used| && forall i :: 0 <= i < first ==> used[i]
    ensures var trips := TraceFrom(edges, used, first);
      && Consumed(used, end, TrailsOf(trips)) && AllUsed(end) && AllClosed(edges, trips)
      && (NoneCleared(trips) <==> !SomeOdd(edges, used))
    decreases |edges| - first
  {
    hide WalkOn, Free, SameParity, IsClosedTrail, SomeOdd, NoneCleared, AllClosed;
    if first == |edges| {
      end := used;
      NothingOdd(edges, used);
      NoTrips(edges);
    } else if used[first] {
      end := TraceEnds(edges, used, first + 1);
    } else {
      var d := Depart(edges, used, first);
      var t := WalkOn(edges, d);
      WalkingStarts(edges, used, first);
      WalkEnds(edges, used, d);
      assert d.trail[0] == first && t.trail[0] == first;
      end := TraceEnds(edges, t.used, first + 1);
      var rest := TraceFrom(edges, t.used, first + 1);
      assert ([t] + rest)[1..] == rest;
      ConsumedThen(used, t.used, end, t.trail, TrailsOf(rest));
      if t.ring != [] { ParityCarries(edges, used, t.used); }
      TripsCons(edges, t, rest);
    }
  }

  lemma TripsCons(edges: seq<Edge>, t: Trip, rest: seq<Trip>)
    ensures NoneCleared([t] + rest) <==> t.ring != [] && NoneCleared(rest)
    ensures AllClosed(edges, [t] + rest) <==>
            (t.ring != [] ==> IsClosedTrail(edges, t.ring, t.trail)) && AllClosed(edges, rest)
  {
    hide IsClosedTrail;
    var trips := [t] + rest;
    assert trips[0] == t && forall r :: 0 <= r < |rest| ==> trips[r + 1] == rest[r];
    assert forall r :: 0 < r < |trips| ==> trips[r] == rest[r - 1];
  }

  lemma NoTrips(edges: seq<Edge>)
    ensures NoneCleared([]) && AllClosed(edges, [])
  {
  }

  lemma NothingOdd(edges: seq<Edge>, used: seq<bool>)
    requires |edges| == |used| && AllUsed(used)
    ensures !SomeOdd(edges, used)
  {
    forall v ensures Free(edges, used, v) == 0 { AllUsedDegree(edges, used, |edges|, v); }
  }

  /** A trace uses every edge exactly once, its rings are closed trails, and it clears
      none exactly when every vertex has even degree. */
  lemma TraceExact(edges: seq<Edge>)
    ensures var trips := Trace(edges);
      && NoRepeats(TrailsOf(trips)) && (forall i: nat :: i in TrailsOf(trips) <==> i < |edges|)
      && AllClosed(edges, trips) && (NoneCleared(trips) <==> AllEven(edges))
  {
    hide TraceFrom, AllClosed, NoneCleared, TrailsOf;
    var trail := TrailsOf(Trace(edges));
    var end := TraceEnds(edges, Unused(|edges|), 0);
    forall i: nat ensures i in trail <==> i < |edges| {
      if i in trail { var k :| 0 <= k < |trail| && trail[k] == i; }
    }
    forall v ensures Free(edges, Unused(|edges|), v) == Degree(edges, v) {
      NoneUsedDegree(edges, Unused(|edges|), |edges|, v);
      assert edges[..|edges|] == edges;
    }
  }

  /** Trace rings from every edge not yet used. */
  method TraceRings(edges: seq<Edge>) returns (rings: seq<seq<Point2>>)
    requires LoopFree(edges)
    ensures rings == RingsOf(Trace(edges))
  {
    hide WalkOn, Lists;
    var adjacency := BuildAdjacency(edges);
    var used := new bool[|edges|](_ => false);
    assert forall i :: 0 <= i < |edges| ==> used[..][i] == Unused(|edges|)[i];
    assert used[..] == Unused(|edges|);
    rings := [];
    for first := 0 to |edges|
      invariant rings + RingsOf(TraceFrom(edges, used[..], first)) == RingsOf(Trace(edges))
    {
      if !used[first] {
        ghost var t := WalkOn(edges, Depart(edges, used[..], first));
        ghost var rest := TraceFrom(edges, t.used, first + 1);
        assert ([t] + rest)[1..] == rest;
        var ring := WalkRing(edges, adjacency, used, first);
        assert rings + ([ring] + RingsOf(rest)) == rings + [ring] + RingsOf(rest);
        rings := rings + [ring];
      }
    }
  }
}
