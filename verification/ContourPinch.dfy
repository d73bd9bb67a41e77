/** Loops that touch at hubs: where the lowest unused edge at each hub is the right one, the
    tracer goes forward all the way. */
module ContourPinch {
  import opened Basics
  import opened ContourGeometry
  import opened ContourTrace
  import opened ContourMerge
  import opened ContourMergeArea
  import opened ContourMergeForward

  /** A point with two edges in and two out, by index; and a path of edges that leads from
      edge 0 to the first edge in. */
  datatype Hub = Hub(at: Point2, in1: nat, in2: nat, out1: nat, out2: nat, lead: seq<nat>)

  ghost predicate AtHub(edges: seq<Edge>, h: Hub) {
    && h.in1 < h.in2 < |edges| && h.out1 < h.out2 < |edges|
    && (forall i :: 0 <= i < |edges| ==> (edges[i].b == h.at <==> i == h.in1 || i == h.in2))
    && (forall i :: 0 <= i < |edges| ==> (edges[i].a == h.at <==> i == h.out1 || i == h.out2))
  }

  /** Edge i ends where edge j begins, and no other edge begins or ends there. */
  ghost predicate Passage(edges: seq<Edge>, i: nat, j: nat) {
    && i < |edges| && j < |edges| && edges[i].b == edges[j].a != edges[0].a
    && (forall e :: 0 <= e < |edges| && edges[e].b == edges[i].b ==> e == i)
    && (forall e :: 0 <= e < |edges| && edges[e].a == edges[i].b ==> e == j)
  }

  lemma PassageAt(edges: seq<Edge>, i: nat, j: nat)
    requires i < |edges| && 0 < j < |edges| && edges[i].b == edges[j].a && OnceThrough(edges, edges[i].b)
    ensures Passage(edges, i, j)
  {
  }

  /** Each edge ends where the next begins. */
  ghost predicate Chained(path: seq<Edge>) {
    forall i, j :: 0 <= i && j == i + 1 < |path| ==> path[i].b == path[j].a
  }

  ghost predicate Leads(edges: seq<Edge>, lead: seq<nat>, to: nat) {
    && lead != [] && lead[0] == 0 && lead[|lead| - 1] == to && NoRepeats(lead)
    && forall n :: 0 < n < |lead| ==> Passage(edges, lead[n - 1], lead[n])
  }

  /** The lowest edge at the hub leads out, or some edge out lies below the second edge in
      and the leading path arrives by the first. */
  ghost predicate Guided(edges: seq<Edge>, h: Hub) {
    h.out1 < h.in1 || (h.out1 < h.in2 && Leads(edges, h.lead, h.in1))
  }

  ghost predicate IsHub(hubs: seq<Hub>, v: Point2) { exists h :: h in hubs && h.at == v }

  ghost predicate Pinch(edges: seq<Edge>, hubs: seq<Hub>) {
    && LoopFree(edges)
    && (forall i, j :: 0 <= i < j < |edges| && edges[i].b == edges[j].b ==> IsHub(hubs, edges[i].b))
    && (forall h :: h in hubs ==> AtHub(edges, h) && Guided(edges, h))
  }

  function One(b: bool): int { if b then 1 else 0 }

  /** Edges used into the hub, less those used out of it. */
  ghost function Surplus(used: seq<bool>, h: Hub): int
    requires h.in1 < |used| && h.in2 < |used| && h.out1 < |used| && h.out2 < |used|
  {
    One(used[h.in1]) + One(used[h.in2]) - One(used[h.out1]) - One(used[h.out2])
  }

  /** The first edge into the hub is used, or the walk is still on the path to it. */
  ghost predicate OnLead(edges: seq<Edge>, t: Trip, h: Hub)
    requires h.in1 < |t.used| == |edges|
  {
    || h.out1 < h.in1 || t.used[h.in1]
    || (0 < |t.trail| < |h.lead| && t.trail == h.lead[..|t.trail|] && t.ring != [] && t.ring[0] == edges[0].a
        && forall j :: 0 <= j < |t.used| ==> (t.used[j] <==> j in t.trail))
  }

  ghost predicate ThreadsHub(edges: seq<Edge>, t: Trip, h: Hub) {
    && AtHub(edges, h) && Guided(edges, h) && |t.used| == |edges| && t.ring != [] && OnLead(edges, t, h)
    && Surplus(t.used, h) == One(Here(t) == h.at) - One(t.ring[0] == h.at)
  }

  ghost predicate Threads(edges: seq<Edge>, hubs: seq<Hub>, t: Trip) {
    Pinch(edges, hubs) && Forward(edges, t) && |t.used| == |edges| && forall h :: h in hubs ==> ThreadsHub(edges, t, h)
  }

  lemma LowestFree(edges: seq<Edge>, used: seq<bool>, v: Point2, i: nat)
    requires |edges| == |used| && FirstFree(edges, used, v, 0) == Some(i)
    ensures i < |edges| && !used[i] && (edges[i].a == v || edges[i].b == v)
    ensures forall j :: 0 <= j < i && (edges[j].a == v || edges[j].b == v) ==> used[j]
  {
    assert forall j :: 0 <= j < i && Ends(edges[j], v) > 0 ==> used[j];
  }

  lemma LastInto(edges: seq<Edge>, t: Trip)
    requires Forward(edges, t)
    ensures |t.trail| > 0 && t.trail[|t.trail| - 1] < |edges| && t.ring != []
    ensures edges[t.trail[|t.trail| - 1]].b == Here(t)
  {
  }

  /** On the leading path the walk is not at the hub and not back at its start. */
  lemma OnLeadAway(edges: seq<Edge>, t: Trip, h: Hub)
    requires ThreadsHub(edges, t, h) && Forward(edges, t) && h.in1 < h.out1 && !t.used[h.in1]
    ensures Here(t) != h.at && Here(t) != t.ring[0]
    ensures Passage(edges, t.trail[|t.trail| - 1], h.lead[|t.trail|])
  {
    LastInto(edges, t);
    var n := |t.trail|;
    assert h.lead[n - 1] == t.trail[n - 1] && Passage(edges, h.lead[n - 1], h.lead[n]);
    assert edges[h.in1].b == edges[h.in2].b == h.at;
  }

  /** At the hub the lowest unused edge leads out. */
  lemma HubLeadsOut(edges: seq<Edge>, t: Trip, h: Hub, i: nat)
    requires ThreadsHub(edges, t, h) && Forward(edges, t) && Here(t) == h.at != t.ring[0]
    requires FirstFree(edges, t.used, h.at, 0) == Some(i)
    ensures edges[i].a == h.at
  {
    LowestFree(edges, t.used, h.at, i);
    if h.in1 < h.out1 && !t.used[h.in1] {
      OnLeadAway(edges, t, h);
      assert false;
    }
    hide Forward, FirstFree, Leads, OnLead;
  }

  /** Everywhere the next edge leads on. */
  lemma NextLeadsOn(edges: seq<Edge>, before: seq<bool>, hubs: seq<Hub>, t: Trip, i: nat)
    requires Walking(edges, before, t) && Threads(edges, hubs, t) && Here(t) != t.ring[0]
    requires FirstFree(edges, t.used, Here(t), 0) == Some(i)
    ensures edges[i].a == Here(t)
  {
    if h :| h in hubs && h.at == Here(t) {
      hide Forward, FirstFree, Walking;
      HubLeadsOut(edges, t, h, i);
    } else {
      var last := t.trail[|t.trail| - 1];
      LastIsUsed(edges, before, t);
      LastInto(edges, t);
      hide Forward, ThreadsHub, AtHub, Guided, Walking;
      assert !IsHub(hubs, Here(t)) && i != last;
      assert edges[i].b != Here(t);
    }
  }

  lemma SurplusMoves(edges: seq<Edge>, h: Hub, used: seq<bool>, i: nat)
    requires LoopFree(edges) && AtHub(edges, h) && i < |edges| == |used| && !used[i]
    ensures Surplus(used[i := true], h) == Surplus(used, h) + One(edges[i].b == h.at) - One(edges[i].a == h.at)
  {
    assert edges[i].a != edges[i].b;
    hide LoopFree;
  }

  lemma LeadMoves(edges: seq<Edge>, t: Trip, h: Hub, i: nat)
    requires ThreadsHub(edges, t, h) && Forward(edges, t) && FirstFree(edges, t.used, Here(t), 0) == Some(i)
    ensures OnLead(edges, Onward(edges, t, i), h)
  {
    if h.in1 < h.out1 && !t.used[h.in1] {
      OnLeadAway(edges, t, h);
      LastInto(edges, t);
      LowestFree(edges, t.used, Here(t), i);
      LeadTakes(edges, t, h, i);
    }
  }

  lemma LeadTakes(edges: seq<Edge>, t: Trip, h: Hub, i: nat)
    requires ThreadsHub(edges, t, h) && h.in1 < h.out1 && !t.used[h.in1] && i < |edges| && !t.used[i]
    requires Passage(edges, t.trail[|t.trail| - 1], h.lead[|t.trail|]) && edges[t.trail[|t.trail| - 1]].b == Here(t)
    requires edges[i].a == Here(t) || edges[i].b == Here(t)
    ensures OnLead(edges, Onward(edges, t, i), h)
  {
    hide AtHub, Surplus;
    var n := |t.trail|;
    assert t.trail[n - 1] in t.trail;
    assert i == h.lead[n];
    assert h.lead[..n + 1] == t.trail + [i];
    var u := Onward(edges, t, i);
    forall j | 0 <= j < |u.used| ensures u.used[j] <==> j in u.trail {
      assert u.used[j] <==> t.used[j] || j == i;
    }
  }

  lemma HubOn(edges: seq<Edge>, t: Trip, h: Hub, i: nat)
    requires LoopFree(edges) && ThreadsHub(edges, t, h) && Forward(edges, t)
    requires FirstFree(edges, t.used, Here(t), 0) == Some(i) && edges[i].a == Here(t)
    ensures ThreadsHub(edges, Onward(edges, t, i), h)
  {
    LeadMoves(edges, t, h, i);
    SurplusMoves(edges, h, t.used, i);
    hide Forward, OnLead, LoopFree, Guided, FirstFree;
  }

  lemma ThreadsOn(edges: seq<Edge>, before: seq<bool>, hubs: seq<Hub>, t: Trip, i: nat)
    requires Walking(edges, before, t) && Threads(edges, hubs, t)
    requires FirstFree(edges, t.used, Here(t), 0) == Some(i) && edges[i].a == Here(t)
    ensures Threads(edges, hubs, Onward(edges, t, i))
  {
    ForwardSteps(edges, before, t, i);
    hide Forward, ThreadsHub, Walking, FirstFree;
    forall h | h in hubs ensures ThreadsHub(edges, Onward(edges, t, i), h) { HubOn(edges, t, h, i); }
  }

  lemma {:induction false} ThreadsForward(edges: seq<Edge>, before: seq<bool>, hubs: seq<Hub>, t: Trip)
    requires Walking(edges, before, t) && Threads(edges, hubs, t)
    ensures var r := WalkOn(edges, t); r.ring != [] ==> Threads(edges, hubs, r) && Here(r) == r.ring[0]
    decreases UnusedCount(t.used)
  {
    assert |t.used| == |edges|;
    hide WalkParity, Threads, Consumed;
    if Here(t) != t.ring[0] {
      var next := FirstFree(edges, t.used, Here(t), 0);
      if next.Some? {
        MarkUnusedCount(t.used, next.value);
        NextLeadsOn(edges, before, hubs, t, next.value);
        ThreadsOn(edges, before, hubs, t, next.value);
        WalkingSteps(edges, before, t, next.value);
        ThreadsForward(edges, before, hubs, Onward(edges, t, next.value));
      }
    }
  }

  /** Before a walk sets out: as many used into a hub as out of it, and the leading path
      used up unless this is the first walk. */
  ghost predicate ReadyHub(edges: seq<Edge>, used: seq<bool>, first: nat, h: Hub) {
    && AtHub(edges, h) && Guided(edges, h) && |used| == |edges| && Surplus(used, h) == 0
    && (h.out1 < h.in1 || used[h.in1] || (first == 0 && forall j :: 0 <= j < |used| ==> !used[j]))
  }

  ghost predicate Ready(edges: seq<Edge>, hubs: seq<Hub>, used: seq<bool>, first: nat) {
    Pinch(edges, hubs) && |used| == |edges| && forall h :: h in hubs ==> ReadyHub(edges, used, first, h)
  }

  lemma HubStart(edges: seq<Edge>, used: seq<bool>, first: nat, h: Hub)
    requires LoopFree(edges) && first < |edges| && ReadyHub(edges, used, first, h) && !used[first]
    ensures ThreadsHub(edges, Depart(edges, used, first), h)
  {
    SurplusMoves(edges, h, used, first);
    var t := Depart(edges, used, first);
    assert Here(t) == edges[first].b && t.ring[0] == edges[first].a;
    if h.in1 < h.out1 && !t.used[h.in1] {
      assert |h.lead| > 1 && h.lead[..1] == [0] == t.trail;
    }
    assert OnLead(edges, t, h);
  }

  lemma ThreadsStart(edges: seq<Edge>, hubs: seq<Hub>, used: seq<bool>, first: nat)
    requires first < |edges| && Ready(edges, hubs, used, first) && !used[first]
    ensures Threads(edges, hubs, Depart(edges, used, first))
  {
    ForwardStarts(edges, used, first);
    hide Forward, ThreadsHub, ReadyHub;
    forall h | h in hubs ensures ThreadsHub(edges, Depart(edges, used, first), h) { HubStart(edges, used, first, h); }
  }

  lemma ReadyAgain(edges: seq<Edge>, hubs: seq<Hub>, t: Trip, first: nat)
    requires Threads(edges, hubs, t) && Here(t) == t.ring[0]
    ensures Ready(edges, hubs, t.used, first + 1) && Backward(edges, t) == 0.0
  {
    hide ThreadsHub, ReadyHub;
    forall h | h in hubs ensures ReadyHub(edges, t.used, first + 1, h) { HubReady(edges, t, h, first); }
  }

  lemma HubReady(edges: seq<Edge>, t: Trip, h: Hub, first: nat)
    requires LoopFree(edges) && ThreadsHub(edges, t, h) && Forward(edges, t) && Here(t) == t.ring[0]
    ensures ReadyHub(edges, t.used, first + 1, h)
  {
    if h.in1 < h.out1 && !t.used[h.in1] {
      OnLeadAway(edges, t, h);
      assert false;
    }
    hide Forward, Leads;
    assert edges[h.in1].a != edges[h.in1].b;
  }

  lemma TripForward(edges: seq<Edge>, hubs: seq<Hub>, used: seq<bool>, first: nat)
    requires first < |edges| == |used| && Ready(edges, hubs, used, first) && !used[first]
    ensures var t := WalkOn(edges, Depart(edges, used, first));
      t.ring != [] ==> Ready(edges, hubs, t.used, first + 1) && Backward(edges, t) == 0.0
  {
    hide WalkOn, Threads, Ready, Walking, Backward;
    var d := Depart(edges, used, first);
    WalkingStarts(edges, used, first);
    ThreadsStart(edges, hubs, used, first);
    ThreadsForward(edges, used, hubs, d);
    var t := WalkOn(edges, d);
    if t.ring != [] { ReadyAgain(edges, hubs, t, first); }
  }

  /** So every walk goes forward. */
  lemma {:induction false} ThreadsAll(edges: seq<Edge>, hubs: seq<Hub>, used: seq<bool>, first: nat)
    requires first <= |edges| == |used| && Ready(edges, hubs, used, first) && NoneCleared(TraceFrom(edges, used, first))
    ensures BackwardSum(edges, TraceFrom(edges, used, first)) == 0.0
    decreases |edges| - first
  {
    hide WalkOn, Backward, NoneCleared, Ready, AllClosed;
    if first < |edges| {
      if used[first] {
        StillReady(edges, hubs, used, first);
        ThreadsAll(edges, hubs, used, first + 1);
      } else {
        var t := WalkOn(edges, Depart(edges, used, first));
        TripForward(edges, hubs, used, first);
        var rest := TraceFrom(edges, t.used, first + 1);
        TripsCons(edges, t, rest);
        assert ([t] + rest)[1..] == rest;
        ThreadsAll(edges, hubs, t.used, first + 1);
      }
    }
  }

  lemma StillReady(edges: seq<Edge>, hubs: seq<Hub>, used: seq<bool>, first: nat)
    requires Ready(edges, hubs, used, first) && first < |used| && used[first]
    ensures Ready(edges, hubs, used, first + 1)
  {
    forall h | h in hubs ensures ReadyHub(edges, used, first + 1, h) { assert ReadyHub(edges, used, first, h); }
  }

  /** Merging keeps the area of fragments whose boundary is pinched at guided hubs. */
  lemma PinchKeepsArea(fragments: seq<seq<Point2>>, hubs: seq<Hub>)
    requires DirectionsCancel(FragmentEdges(fragments)) && Pinch(Boundary(fragments), hubs)
    ensures RingsArea(Merged(fragments)) == RingsArea(fragments)
  {
    hide *;
    FragmentEdgesLoopFree(fragments);
    CancelMeansEven(FragmentEdges(fragments));
    MergeTracesBoundary(fragments);
    MergedAreaExact(fragments);
    PinchIsForward(Boundary(fragments), hubs);
  }

  lemma PinchIsForward(edges: seq<Edge>, hubs: seq<Hub>)
    requires Pinch(edges, hubs) && NoneCleared(Trace(edges))
    ensures BackwardSum(edges, Trace(edges)) == 0.0
  {
    var unused := Unused(|edges|);
    forall h | h in hubs ensures ReadyHub(edges, unused, 0, h) { assert AtHub(edges, h); }
    ThreadsAll(edges, hubs, unused, 0);
  }
}
