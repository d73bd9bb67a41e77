/** A fan whose hub joins two separate loops, each made of two rings: its boundary is a
    pinch. */
module ContourPinchFan {
  import opened ContourGeometry
  import opened ContourTrace
  import opened ContourMerge
  import opened ContourMergeArea
  import opened ContourMergeForward
  import opened ContourWheel
  import opened ContourFan
  import opened ContourPinch

  /** Every other spoke is open, all from the hub; and if the first spoke is, the hub ends
      or begins the list of the first ring. */
  ghost predicate PinchedFan(hub: Point2, r: seq<seq<Point2>>, spokes: seq<Spoke>) {
    && Fan(hub, r, spokes)
    && (forall k :: 0 <= k < 4 ==> hub in r[k])
    && (forall k :: 0 <= k < 4 ==> spokes[k].open != spokes[After(k)].open)
    && (spokes[0].open ==> r[0][0] == hub || r[0][|r[0]| - 1] == hub)
  }

  // ---- which edges of a ring stay ----

  /** Only one edge of a simple ring leaves a vertex. */
  lemma OneOutOf(ring: seq<Point2>, e: Edge, f: Edge)
    requires Simple(ring) && Has(ring, e) && Has(ring, f) && e.a == f.a
    ensures e == f
  {
    hide Has;
    var i := EdgeEnds(ring, e);
    var j := EdgeEnds(ring, f);
    assert i == j;
  }

  lemma VertexEdges(ring: seq<Point2>, v: Point2) returns (into: Edge, out: Edge)
    requires Simple(ring) && v in ring
    ensures Has(ring, into) && Has(ring, out) && into.b == v && out.a == v && into.a != v && out.b != v
  {
    hide Has;
    var i :| 0 <= i < |ring| && ring[i] == v;
    var n := |ring|;
    var p := if i == 0 then n - 1 else i - 1;
    assert NextIndex(p, n) == i;
    EdgeThere(ring, i);
    EdgeThere(ring, p);
    into, out := Edge(ring[p], v), Edge(v, ring[NextIndex(i, n)]);
  }

  predicate Outward(spoke: Spoke, e: Edge) { spoke.open && e == Edge(spoke.inner, spoke.outer) }

  predicate Back(spoke: Spoke, e: Edge) { spoke.open && e == Edge(spoke.outer, spoke.inner) }

  /** An edge of a ring stays in the boundary unless it is on one of the ring's spokes. */
  lemma ChordIsSingle(hub: Point2, r: seq<seq<Point2>>, spokes: seq<Spoke>, k: nat, e: Edge)
    requires Fan(hub, r, spokes) && k < 4 && Has(r[k], e)
    requires !Outward(spokes[k], e) && !Back(spokes[After(k)], e)
    ensures Count(AllEdges(r), Key(e)) == 1
  {
    NonEmptyHolder(r[k], e);
    hide AllEdges, Key, Count, Has, MeetAt, SharesSpoke;
    RingEdgeEnds(r[k], e);
    NotBothWays(r[k], e);
    forall l | 0 <= l < 4 && l != k ensures !Holds(r[l], e) { ChordNotShared(hub, r, spokes, k, l, e); }
    CountDirected(AllEdges(r), e);
    AllDirected(r, e);
    AllDirected(r, Rev(e));
  }

  lemma RingEdgeEnds(ring: seq<Point2>, e: Edge)
    requires Simple(ring) && Has(ring, e)
    ensures e.a != e.b
  {
    hide Has;
    var i := EdgeEnds(ring, e);
  }

  lemma ChordNotShared(hub: Point2, r: seq<seq<Point2>>, spokes: seq<Spoke>, k: nat, l: nat, e: Edge)
    requires Fan(hub, r, spokes) && k < 4 && l < 4 && l != k && e.a != e.b && Has(r[k], e) && r[k] != []
    requires !Outward(spokes[k], e) && !Back(spokes[After(k)], e)
    ensures !Holds(r[l], e)
  {
    SpokesInRing(hub, r, spokes, k);
    NotBothWays(r[k], e);
    if Holds(r[l], e) {
      var j := HeldTwice(hub, r, spokes, k, l, e);
      hide Has, Fan;
      assert false;
    }
  }

  lemma SpokesInRing(hub: Point2, r: seq<seq<Point2>>, spokes: seq<Spoke>, k: nat)
    requires Fan(hub, r, spokes) && k < 4
    ensures spokes[k].open ==> Has(r[k], Edge(spokes[k].inner, spokes[k].outer))
    ensures var j := After(k); spokes[j].open ==> Has(r[k], Edge(spokes[j].outer, spokes[j].inner))
  {
    hide Has, MeetAt, Simple;
    var before := After(After(After(k)));
    assert After(before) == k;
    assert spokes[k].open ==> SharesSpoke(r[before], r[k], spokes[k]);
  }

  lemma {:induction false} SinglesKeeps(s: seq<Edge>, all: seq<Edge>, e: Edge)
    requires e in s && Count(all, Key(e)) == 1
    ensures e in Singles(s, all, true)
  {
    hide Count, Key;
    var n := |s| - 1;
    if e != s[n] {
      assert s == s[..n] + [s[n]];
      SinglesKeeps(s[..n], all, e);
    }
  }

  // ---- the hub's edge in a ring's share of the boundary ----

  /** Ring k has one boundary edge at the hub: into it if the ring starts at an open spoke,
      else out of it. */
  ghost predicate Gate(hub: Point2, own: seq<Edge>, p: nat, into: bool) {
    && p < |own|
    && (forall i :: 0 <= i < |own| ==> (own[i].b == hub <==> into && i == p))
    && (forall i :: 0 <= i < |own| ==> (own[i].a == hub <==> !into && i == p))
  }

  lemma OwnGate(hub: Point2, r: seq<seq<Point2>>, spokes: seq<Spoke>, k: nat) returns (p: nat)
    requires PinchedFan(hub, r, spokes) && k < 4
    ensures Gate(hub, Own(r, k), p, spokes[k].open)
  {
    assert |r| == 4;
    var into, out, kept, gone := HubEdges(hub, r, spokes, k);
    hide *;
    p := OwnHas(r, k, kept);
    var own := Own(r, k);
    forall i | 0 <= i < |own| ensures AtGate(hub, own, into, out, gone, i) {
      OwnAtGate(hub, r, k, into, out, gone, i);
    }
    forall i | 0 <= i < |own| && own[i] == kept ensures i == p { OwnDiffer(r, k, i, p); }
    GateFrom(hub, own, into, out, gone, p, spokes[k].open);
  }

  ghost predicate AtGate(hub: Point2, own: seq<Edge>, into: Edge, out: Edge, gone: Edge, i: nat)
    requires i < |own|
  {
    (own[i].b == hub <==> own[i] == into) && (own[i].a == hub <==> own[i] == out) && own[i] != gone
  }

  lemma GateFrom(hub: Point2, own: seq<Edge>, into: Edge, out: Edge, gone: Edge, p: nat, inward: bool)
    requires p < |own| && into != out && gone == (if inward then out else into)
    requires own[p] == if inward then into else out
    requires forall i :: 0 <= i < |own| ==> AtGate(hub, own, into, out, gone, i)
    requires forall i :: 0 <= i < |own| && own[i] == own[p] ==> i == p
    ensures Gate(hub, own, p, inward)
  {
    assert AtGate(hub, own, into, out, gone, p);
    forall i | 0 <= i < |own|
      ensures own[i].b == hub <==> inward && i == p
      ensures own[i].a == hub <==> !inward && i == p
    {
      assert AtGate(hub, own, into, out, gone, i);
    }
  }

  lemma OwnHas(r: seq<seq<Point2>>, k: nat, e: Edge) returns (p: nat)
    requires |r| == 4 && k < 4 && Has(r[k], e) && Count(AllEdges(r), Key(e)) == 1
    ensures p < |Own(r, k)| && Own(r, k)[p] == e
  {
    hide AllEdges, Singles, EdgesOf, Count, Key;
    SinglesKeeps(EdgesOf(r[k]), AllEdges(r), e);
    p :| 0 <= p < |Own(r, k)| && Own(r, k)[p] == e;
  }

  lemma OwnAtGate(hub: Point2, r: seq<seq<Point2>>, k: nat, into: Edge, out: Edge, gone: Edge, i: nat)
    requires |r| == 4 && k < 4 && i < |Own(r, k)| && Simple(r[k])
    requires Has(r[k], into) && Has(r[k], out) && into.b == hub && out.a == hub
    requires Count(AllEdges(r), Key(gone)) != 1
    ensures AtGate(hub, Own(r, k), into, out, gone, i)
  {
    var e := Own(r, k)[i];
    hide Own, Has, Simple, Count, Key, AllEdges;
    OwnAt(r, k, i);
    if e.b == hub { OneInto(r[k], e, into); }
    if e.a == hub { OneOutOf(r[k], e, out); }
  }

  lemma OwnAt(r: seq<seq<Point2>>, k: nat, i: nat)
    requires |r| == 4 && k < 4 && i < |Own(r, k)|
    ensures Has(r[k], Own(r, k)[i]) && Count(AllEdges(r), Key(Own(r, k)[i])) == 1
  {
    hide AllEdges, Singles, EdgesOf, Count, Key;
    assert Own(r, k)[i] in Own(r, k);
    SinglesMember(EdgesOf(r[k]), AllEdges(r), Own(r, k)[i]);
  }

  /** Of the ring's two edges at the hub, one is on a spoke and the other stays. */
  lemma HubEdges(hub: Point2, r: seq<seq<Point2>>, spokes: seq<Spoke>, k: nat)
    returns (into: Edge, out: Edge, kept: Edge, gone: Edge)
    requires PinchedFan(hub, r, spokes) && k < 4
    ensures Simple(r[k]) && Has(r[k], into) && Has(r[k], out) && into.b == hub && out.a == hub
    ensures if spokes[k].open then kept == into && gone == out else kept == out && gone == into
    ensures kept != gone && Has(r[k], kept)
    ensures Count(AllEdges(r), Key(kept)) == 1 && Count(AllEdges(r), Key(gone)) != 1
  {
    into, out := VertexEdges(r[k], hub);
    hide AllEdges, Has, Count, Key, MeetAt, Simple;
    kept, gone := if spokes[k].open then into else out, if spokes[k].open then out else into;
    var j := if spokes[k].open then k else After(k);
    var before := if spokes[k].open then After(After(After(k))) else k;
    assert After(before) == j && spokes[j].open && spokes[j].inner == hub;
    assert SharesSpoke(r[before], r[j], spokes[j]);
    if j == k {
      OneOutOf(r[k], out, Edge(hub, spokes[j].outer));
    } else {
      OneInto(r[k], into, Edge(spokes[j].outer, hub));
    }
    SpokeNotSingle(hub, r, spokes, before, gone);
    ChordIsSingle(hub, r, spokes, k, kept);
  }

  lemma OwnDiffer(r: seq<seq<Point2>>, k: nat, i: nat, j: nat)
    requires |r| == 4 && k < 4 && Simple(r[k]) && i < |Own(r, k)| && j < |Own(r, k)|
    requires Own(r, k)[i] == Own(r, k)[j]
    ensures i == j
  {
    hide Own, Simple;
    forall v ensures Inward(Own(r, k), v) <= 1 { OwnInward(r, k, v); }
    FewInward(Own(r, k));
  }

  // ---- the first ring, when the first spoke is open ----

  lemma {:induction false} AllSingles(s: seq<Edge>, all: seq<Edge>)
    requires forall i :: 0 <= i < |s| ==> Count(all, Key(s[i])) == 1
    ensures Singles(s, all, true) == s
  {
    hide Count, Key;
    if s != [] {
      var n := |s| - 1;
      assert s[..n] + [s[n]] == s;
      AllSingles(s[..n], all);
    }
  }

  /** Dropping one edge at either end of a ring's list leaves a path. */
  lemma PathLeft(ring: seq<Point2>, q: nat, path: seq<Edge>)
    requires Simple(ring) && |EdgesOf(ring)| == |ring| && (q == 0 || q == |ring| - 1)
    requires path == if q == 0 then EdgesOf(ring)[1..] else EdgesOf(ring)[..q]
    ensures |path| == |ring| - 1 && Chained(path) && path[|path| - 1].b == ring[q]
  {
    hide RingEdges;
    var shift, n := if q == 0 then 1 else 0, |ring|;
    forall i | 0 <= i < n - 1 ensures path[i] == Edge(ring[i + shift], ring[NextIndex(i + shift, n)]) {
      RingEdgesAt(ring, i + shift);
      assert path[i] == EdgesOf(ring)[i + shift];
    }
  }

  /** Where the first ring's list has its spoke edge. */
  ghost function SpokeIndex(hub: Point2, ring: seq<Point2>): nat
    requires ring != []
  {
    if ring[0] == hub then 0 else |ring| - 1
  }

  /** All edges of the first ring but its spoke edge stay. */
  lemma FirstRingEdges(hub: Point2, r: seq<seq<Point2>>, spokes: seq<Spoke>, i: nat)
    requires PinchedFan(hub, r, spokes) && spokes[0].open && i < |r[0]|
    ensures |EdgesOf(r[0])| == |r[0]|
    ensures Count(AllEdges(r), Key(EdgesOf(r[0])[i])) == 1 <==> i != SpokeIndex(hub, r[0])
  {
    var ring, q := r[0], SpokeIndex(hub, r[0]);
    var spoke := Edge(hub, spokes[0].outer);
    SpokesInRing(hub, r, spokes, 0);
    RingEdgesAt(ring, i);
    var e := EdgesOf(ring)[i];
    assert Simple(ring) && ring[q] == hub && !spokes[1].open && After(0) == 1 && After(3) == 0 && spokes[0].inner == hub;
    hide RingEdges, AllEdges, Count, Key, MeetAt, SharesSpoke;
    assert e in EdgesOf(ring);
    hide PinchedFan, Has, EdgesOf;
    if i == q {
      OneOutOf(ring, e, spoke);
      SpokeNotSingle(hub, r, spokes, 3, e);
    } else {
      assert e.a != hub;
      ChordIsSingle(hub, r, spokes, 0, e);
    }
  }

  lemma PinchedShape(hub: Point2, r: seq<seq<Point2>>, spokes: seq<Spoke>)
    requires PinchedFan(hub, r, spokes)
    ensures |r| == |spokes| == 4 && Fan(hub, r, spokes) && Simple(r[0]) && |r[0]| >= 3
    ensures spokes[1].open == spokes[3].open == !spokes[0].open && spokes[2].open == spokes[0].open
    ensures spokes[0].open ==> r[0][SpokeIndex(hub, r[0])] == hub
  {
    hide Fan;
    assert |r| == |spokes| == 4 && (r[0] == [] || Simple(r[0])) by { FirstSimple(hub, r, spokes); }
    assert After(0) == 1 && After(1) == 2 && After(2) == 3;
  }

  lemma FirstSimple(hub: Point2, r: seq<seq<Point2>>, spokes: seq<Spoke>)
    requires Fan(hub, r, spokes)
    ensures |r| == |spokes| == 4 && (r[0] == [] || Simple(r[0]))
  {
  }

  /** Skipping one edge at either end. */
  lemma SkipOne(s: seq<Edge>, all: seq<Edge>, q: nat, path: seq<Edge>)
    requires q < |s| && (q == 0 || q == |s| - 1) && path == if q == 0 then s[1..] else s[..q]
    requires forall i :: 0 <= i < |s| ==> (Count(all, Key(s[i])) == 1 <==> i != q)
    ensures Singles(s, all, true) == path
  {
    hide Count, Key, Singles;
    var shift := if q == 0 then 1 else 0;
    forall i | 0 <= i < |path| ensures Count(all, Key(path[i])) == 1 { assert path[i] == s[i + shift]; }
    AllSingles(path, all);
    NotSingle(s[q], all);
    if q == 0 {
      assert s == [s[0]] + path;
      SinglesConcat([s[0]], path, all);
    } else {
      assert s == path + [s[q]];
      SinglesConcat(path, [s[q]], all);
    }
  }

  lemma FirstRingLeads(hub: Point2, r: seq<seq<Point2>>, spokes: seq<Spoke>)
    requires |r| == |spokes| == 4 && PinchedFan(hub, r, spokes) && spokes[0].open
    ensures var own := Own(r, 0); |own| > 0 && Chained(own) && own[|own| - 1].b == hub
  {
    hide PinchedFan, Fan, RingEdges, AllEdges, Count, Key, Chained, Singles, EdgesOf, Simple;
    PinchedShape(hub, r, spokes);
    var ring, q := r[0], SpokeIndex(hub, r[0]);
    FirstRingEdges(hub, r, spokes, 0);
    var s := EdgesOf(ring);
    forall i | 0 <= i < |s| ensures Count(AllEdges(r), Key(s[i])) == 1 <==> i != q {
      FirstRingEdges(hub, r, spokes, i);
    }
    var path := if q == 0 then s[1..] else s[..q];
    SkipOne(s, AllEdges(r), q, path);
    PathLeft(ring, q, path);
  }

  lemma NotSingle(e: Edge, all: seq<Edge>)
    requires Count(all, Key(e)) != 1
    ensures Singles([e], all, true) == []
  {
    hide Count, Key;
    assert [e][..0] == [];
  }

  // ---- the whole boundary ----

  lemma RepeatsAtHub(hub: Point2, r: seq<seq<Point2>>, spokes: seq<Spoke>, i: nat, j: nat)
    requires PinchedFan(hub, r, spokes) && |r| == 4
    requires var boundary := Singles(AllEdges(r), AllEdges(r), true); i < j < |boundary| && boundary[i].b == boundary[j].b
    ensures Singles(AllEdges(r), AllEdges(r), true)[i].b == hub
  {
    var boundary := Singles(AllEdges(r), AllEdges(r), true);
    NothingTouches(hub, r, spokes);
    hide PinchedFan, Fan, Singles, AllEdges, Untouched;
    if boundary[i].b != hub { FanOnce(hub, r, spokes, boundary[i].b); }
  }

  lemma NothingTouches(hub: Point2, r: seq<seq<Point2>>, spokes: seq<Spoke>)
    requires PinchedFan(hub, r, spokes)
    ensures |r| == 4 && Fan(hub, r, spokes) && forall v :: Untouched(spokes, v)
  {
    assert hub in r[0];
  }

  /** The hub of the boundary, from the places of its edges in the four rings' shares. */
  ghost function HubOf(hub: Point2, own: seq<seq<Edge>>, p: seq<nat>, into: bool): Hub
    requires |own| == |p| == 4
  {
    var q := |own[0]| + p[1];
    var x := |own[0]| + |own[1]| + p[2];
    var y := |own[0]| + |own[1]| + |own[2]| + p[3];
    if into then Hub(hub, p[0], x, q, y, UpTo(p[0] + 1)) else Hub(hub, q, y, p[0], x, [])
  }

  function UpTo(n: nat): (s: seq<nat>)
    ensures |s| == n && forall i :: 0 <= i < n ==> s[i] == i
  {
    seq(n, i => i)
  }

  lemma GatesAtHub(hub: Point2, own: seq<seq<Edge>>, p: seq<nat>, into: bool)
    requires |own| == |p| == 4
    requires Gate(hub, own[0], p[0], into) && Gate(hub, own[1], p[1], !into)
    requires Gate(hub, own[2], p[2], into) && Gate(hub, own[3], p[3], !into)
    ensures AtHub(own[0] + own[1] + own[2] + own[3], HubOf(hub, own, p, into))
  {
    var a, b, c, d := own[0], own[1], own[2], own[3];
    var all, h := a + b + c + d, HubOf(hub, own, p, into);
    forall i | 0 <= i < |all|
      ensures all[i].b == hub <==> i == h.in1 || i == h.in2
      ensures all[i].a == hub <==> i == h.out1 || i == h.out2
    {
      var m, n, l := |a|, |a| + |b|, |a| + |b| + |c|;
      assert all[i] == if i < m then a[i] else if i < n then b[i - m] else if i < l then c[i - n] else d[i - l];
    }
  }

  /** The first ring's share leads to the hub. */
  lemma FirstShareLeads(hub: Point2, r: seq<seq<Point2>>, spokes: seq<Spoke>, boundary: seq<Edge>, rest: seq<Edge>, p: nat)
    requires |r| == 4 && Fan(hub, r, spokes) && forall v :: Untouched(spokes, v)
    requires boundary == Singles(AllEdges(r), AllEdges(r), true) == Own(r, 0) + rest
    requires Chained(Own(r, 0)) && Gate(hub, Own(r, 0), p, true)
    ensures Leads(boundary, UpTo(p + 1), p)
  {
    var own := Own(r, 0);
    hide Fan, Singles, AllEdges, Own, Untouched;
    var lead := UpTo(p + 1);
    forall n | 0 < n < |lead| ensures Passage(boundary, lead[n - 1], lead[n]) {
      var i := n - 1;
      assert boundary[i] == own[i] && boundary[n] == own[n];
      assert own[i].b == own[n].a && own[i].b != hub;
      FanOnce(hub, r, spokes, boundary[i].b);
      PassageAt(boundary, i, n);
    }
  }

  /** The boundary of a pinched fan is a pinch. */
  lemma FanPinches(hub: Point2, r: seq<seq<Point2>>, spokes: seq<Spoke>) returns (h: Hub)
    requires |r| == |spokes| == 4 && PinchedFan(hub, r, spokes)
    ensures Pinch(Singles(AllEdges(r), AllEdges(r), true), [h])
  {
    hide PinchedFan, Fan, Singles, AllEdges, Own, LoopFree, AtHub, Chained, Gate, SpokeIndex, Leads, Simple;
    NothingTouches(hub, r, spokes);
    PinchedShape(hub, r, spokes);
    var boundary := Singles(AllEdges(r), AllEdges(r), true);
    FanRings(hub, r, spokes);
    AllLoopFree(r);
    forall i, j | 0 <= i < j < |boundary| && boundary[i].b == boundary[j].b ensures boundary[i].b == hub {
      RepeatsAtHub(hub, r, spokes, i, j);
    }
    h := PinchHub(hub, r, spokes);
    assert h in [h];
  }

  lemma PinchHub(hub: Point2, r: seq<seq<Point2>>, spokes: seq<Spoke>) returns (h: Hub)
    requires |r| == |spokes| == 4 && PinchedFan(hub, r, spokes)
    ensures h.at == hub && AtHub(Singles(AllEdges(r), AllEdges(r), true), h)
    ensures Guided(Singles(AllEdges(r), AllEdges(r), true), h)
  {
    hide PinchedFan, Fan, Singles, AllEdges, Own, AtHub, Chained, Gate, SpokeIndex, Leads, Simple, Untouched;
    NothingTouches(hub, r, spokes);
    PinchedShape(hub, r, spokes);
    var into := spokes[0].open;
    var p0 := OwnGate(hub, r, spokes, 0);
    var p1 := OwnGate(hub, r, spokes, 1);
    var p2 := OwnGate(hub, r, spokes, 2);
    var p3 := OwnGate(hub, r, spokes, 3);
    BoundaryIsOwn(r);
    var own, p := [Own(r, 0), Own(r, 1), Own(r, 2), Own(r, 3)], [p0, p1, p2, p3];
    GatesAtHub(hub, own, p, into);
    h := HubOf(hub, own, p, into);
    GateInside(hub, own[0], p0, into);
    GateInside(hub, own[1], p1, !into);
    GateInside(hub, own[2], p2, into);
    if into {
      FirstRingLeads(hub, r, spokes);
      var boundary, rest := Singles(AllEdges(r), AllEdges(r), true), own[1] + own[2] + own[3];
      assert boundary == own[0] + rest;
      FirstShareLeads(hub, r, spokes, boundary, rest, p0);
    }
  }

  lemma GateInside(hub: Point2, own: seq<Edge>, p: nat, into: bool)
    requires Gate(hub, own, p, into)
    ensures p < |own|
  {
  }
}
