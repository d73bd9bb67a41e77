/** Four rings around a hub that share edges along spokes: the shared edges cancel, and
    no boundary point is reached twice. */
module ContourFan {
  import opened Basics
  import opened ContourGeometry
  import opened ContourTrace
  import opened ContourMerge
  import opened ContourMergeArea
  import opened ContourMergeForward
  import opened ContourWheel

  // ---- one ring ----

  /** At least three vertices, all different. */
  ghost predicate Simple(ring: seq<Point2>) { |ring| >= 3 && NoRepeats(ring) }

  ghost function EdgesOf(ring: seq<Point2>): seq<Edge> { if ring == [] then [] else RingEdges(ring) }

  ghost predicate Has(ring: seq<Point2>, e: Edge) { e in EdgesOf(ring) }

  lemma EdgeEnds(ring: seq<Point2>, e: Edge) returns (i: nat)
    requires Has(ring, e)
    ensures i < |ring| == |EdgesOf(ring)| && EdgesOf(ring)[i] == e
    ensures e.a == ring[i] && e.b == ring[NextIndex(i, |ring|)] && e.a in ring && e.b in ring
  {
    hide RingEdges;
    RingEdgesAt(ring, 0);
    i :| 0 <= i < |EdgesOf(ring)| && EdgesOf(ring)[i] == e;
    RingEdgesAt(ring, i);
    assert ring[NextIndex(i, |ring|)] in ring;
  }

  lemma EdgeThere(ring: seq<Point2>, i: nat)
    requires i < |ring|
    ensures Has(ring, Edge(ring[i], ring[NextIndex(i, |ring|)]))
  {
    hide RingEdges;
    RingEdgesAt(ring, i);
    assert EdgesOf(ring)[i] in EdgesOf(ring);
  }

  /** Only one edge of a simple ring leads to a vertex. */
  lemma OneInto(ring: seq<Point2>, e: Edge, f: Edge)
    requires Simple(ring) && Has(ring, e) && Has(ring, f) && e.b == f.b
    ensures e == f
  {
    hide Has;
    var i := EdgeEnds(ring, e);
    var j := EdgeEnds(ring, f);
    assert NextIndex(i, |ring|) == NextIndex(j, |ring|);
  }

  /** No edge of a simple ring is there in both directions. */
  lemma NotBothWays(ring: seq<Point2>, e: Edge)
    requires Simple(ring) && Has(ring, e)
    ensures !Has(ring, Rev(e))
  {
    var i := EdgeEnds(ring, e);
    if Has(ring, Rev(e)) {
      var j := EdgeEnds(ring, Rev(e));
      assert false;
    }
  }

  lemma EdgesDiffer(ring: seq<Point2>)
    requires Simple(ring)
    ensures NoRepeats(EdgesOf(ring))
  {
    hide RingEdges;
    RingEdgesAt(ring, 0);
    forall i, j | 0 <= i < j < |EdgesOf(ring)| ensures EdgesOf(ring)[i] != EdgesOf(ring)[j] {
      RingEdgesAt(ring, i);
      RingEdgesAt(ring, j);
    }
  }

  lemma {:induction false} DirectedMember(s: seq<Edge>, e: Edge)
    requires NoRepeats(s)
    ensures Directed(s, e) == if e in s then 1 else 0
  {
    if s != [] {
      var n := |s| - 1;
      DirectedMember(s[..n], e);
      assert s == s[..n] + [s[n]];
      assert forall i :: 0 <= i < n ==> s[..n][i] == s[i] != s[n];
    }
  }

  lemma RingDirected(ring: seq<Point2>, e: Edge)
    requires ring == [] || Simple(ring)
    ensures Directed(EdgesOf(ring), e) == if Has(ring, e) then 1 else 0
  {
    hide RingEdges;
    if ring != [] { EdgesDiffer(ring); }
    DirectedMember(EdgesOf(ring), e);
  }

  lemma {:induction false} InwardMember(s: seq<Edge>, v: Point2) returns (e: Edge)
    requires Inward(s, v) > 0
    ensures e in s && e.b == v
  {
    var n := |s| - 1;
    if s[n].b == v { e := s[n]; } else { e := InwardMember(s[..n], v); }
  }

  lemma {:induction false} InwardTwice(s: seq<Edge>, v: Point2) returns (i: nat, j: nat)
    requires Inward(s, v) > 1
    ensures i < j < |s| && s[i].b == v && s[j].b == v
  {
    var n := |s| - 1;
    if s[n].b == v {
      j := n;
      i := InwardAt(s[..n], v);
    } else {
      i, j := InwardTwice(s[..n], v);
    }
  }

  lemma {:induction false} InwardAt(s: seq<Edge>, v: Point2) returns (i: nat)
    requires Inward(s, v) > 0
    ensures i < |s| && s[i].b == v
  {
    var n := |s| - 1;
    if s[n].b == v { i := n; } else { i := InwardAt(s[..n], v); }
  }

  lemma RingInward(ring: seq<Point2>, v: Point2)
    requires ring == [] || Simple(ring)
    ensures Inward(EdgesOf(ring), v) <= 1
  {
    hide RingEdges;
    var s := EdgesOf(ring);
    if Inward(s, v) > 1 {
      var i, j := InwardTwice(s, v);
      assert Has(ring, s[i]) && Has(ring, s[j]);
      OneInto(ring, s[i], s[j]);
      EdgesDiffer(ring);
      assert false;
    }
  }

  // ---- singles of a concatenation ----

  lemma {:induction false} DirectedConcat(s: seq<Edge>, t: seq<Edge>, e: Edge)
    ensures Directed(s + t, e) == Directed(s, e) + Directed(t, e)
  {
    if t == [] {
      assert s + t == s;
    } else {
      assert (s + t)[..|s + t| - 1] == s + t[..|t| - 1];
      DirectedConcat(s, t[..|t| - 1], e);
    }
  }

  lemma {:induction false} InwardConcat(s: seq<Edge>, t: seq<Edge>, v: Point2)
    ensures Inward(s + t, v) == Inward(s, v) + Inward(t, v)
  {
    if t == [] {
      assert s + t == s;
    } else {
      assert (s + t)[..|s + t| - 1] == s + t[..|t| - 1];
      InwardConcat(s, t[..|t| - 1], v);
    }
  }

  lemma {:induction false} SinglesConcat(s: seq<Edge>, t: seq<Edge>, all: seq<Edge>)
    ensures Singles(s + t, all, true) == Singles(s, all, true) + Singles(t, all, true)
  {
    hide Count, Key;
    if t == [] {
      assert s + t == s;
    } else {
      var n := |t| - 1;
      assert (s + t)[..|s + t| - 1] == s + t[..n] && (s + t)[|s + t| - 1] == t[n];
      SinglesConcat(s, t[..n], all);
      var x, y := Singles(s, all, true), Singles(t[..n], all, true);
      assert x + (y + [t[n]]) == x + y + [t[n]];
    }
  }

  lemma {:induction false} SinglesMember(s: seq<Edge>, all: seq<Edge>, e: Edge)
    requires e in Singles(s, all, true)
    ensures e in s && Count(all, Key(e)) == 1
  {
    hide Count, Key;
    var n := |s| - 1;
    if e in Singles(s[..n], all, true) { SinglesMember(s[..n], all, e); }
  }

  lemma {:induction false} SinglesInward(s: seq<Edge>, all: seq<Edge>, v: Point2)
    ensures Inward(Singles(s, all, true), v) <= Inward(s, v)
  {
    hide Count, Key;
    if s != [] {
      var n := |s| - 1;
      SinglesInward(s[..n], all, v);
      var rest := Singles(s[..n], all, true);
      assert (rest + [s[n]])[..|rest|] == rest;
    }
  }

  // ---- four rings ----

  /** Along a spoke two neighbouring rings share the edge between two points, if it is
      open, or just the outer point, if they touch there. */
  datatype Spoke = Spoke(open: bool, touching: bool, inner: Point2, outer: Point2)

  ghost function AllEdges(r: seq<seq<Point2>>): seq<Edge>
    requires |r| == 4
  {
    EdgesOf(r[0]) + EdgesOf(r[1]) + EdgesOf(r[2]) + EdgesOf(r[3])
  }

  /** Spoke j lies between rings k and l. */
  predicate Between(k: nat, l: nat, j: nat) { (l == After(k) && j == l) || (k == After(l) && j == k) }

  predicate IsEnd(spoke: Spoke, v: Point2) { spoke.open && (v == spoke.inner || v == spoke.outer) }

  predicate TouchesAt(spoke: Spoke, v: Point2) { spoke.touching && v == spoke.outer }

  /** Rings are simple; an open spoke's edge runs outward in the ring after it and inward
      in the ring before; and besides the hub two rings meet only at the ends of the
      open spoke between them, or where they touch. Rings touch only apart from the hub. */
  ghost predicate Fan(hub: Point2, r: seq<seq<Point2>>, spokes: seq<Spoke>) {
    && |r| == |spokes| == 4
    && (forall k :: 0 <= k < 4 ==> r[k] == [] || Simple(r[k]))
    && (forall k :: 0 <= k < 4 && spokes[After(k)].open ==> SharesSpoke(r[k], r[After(k)], spokes[After(k)]))
    && (forall k, l, v :: 0 <= k < 4 && 0 <= l < 4 && k != l && v != hub && v in r[k] && v in r[l] ==>
          MeetAt(spokes, k, l, v))
    && (forall k, j :: 0 <= k < 4 && 0 <= j < 4 && hub in r[k] && spokes[j].open ==> spokes[j].inner == hub)
    && (forall j :: 0 <= j < 4 && spokes[j].touching ==> !spokes[j].open && forall k :: 0 <= k < 4 ==> hub !in r[k])
  }

  ghost predicate SharesSpoke(before: seq<Point2>, after: seq<Point2>, spoke: Spoke) {
    && spoke.inner != spoke.outer
    && Has(before, Edge(spoke.outer, spoke.inner)) && Has(after, Edge(spoke.inner, spoke.outer))
  }

  ghost predicate MeetAt(spokes: seq<Spoke>, k: nat, l: nat, v: Point2)
    requires |spokes| == 4
  {
    exists j :: 0 <= j < 4 && Between(k, l, j) && (IsEnd(spokes[j], v) || TouchesAt(spokes[j], v))
  }

  ghost function Hold(ring: seq<Point2>, e: Edge): nat { if Has(ring, e) then 1 else 0 }

  lemma AllDirected(r: seq<seq<Point2>>, e: Edge)
    requires |r| == 4 && forall k :: 0 <= k < 4 ==> r[k] == [] || Simple(r[k])
    ensures Directed(AllEdges(r), e) == Hold(r[0], e) + Hold(r[1], e) + Hold(r[2], e) + Hold(r[3], e)
  {
    hide EdgesOf, Simple, Has;
    var a, b, c, d := EdgesOf(r[0]), EdgesOf(r[1]), EdgesOf(r[2]), EdgesOf(r[3]);
    DirectedConcat(a, b, e);
    DirectedConcat(a + b, c, e);
    DirectedConcat(a + b + c, d, e);
    RingDirected(r[0], e);
    RingDirected(r[1], e);
    RingDirected(r[2], e);
    RingDirected(r[3], e);
  }

  ghost predicate Holds(ring: seq<Point2>, e: Edge) { Has(ring, e) || Has(ring, Rev(e)) }

  /** An edge in two rings is the edge of the open spoke between them. */
  lemma HeldTwice(hub: Point2, r: seq<seq<Point2>>, spokes: seq<Spoke>, k: nat, l: nat, e: Edge) returns (j: nat)
    requires Fan(hub, r, spokes) && k < 4 && l < 4 && k != l && e.a != e.b && Holds(r[k], e) && Holds(r[l], e)
    ensures j < 4 && Between(k, l, j) && spokes[j].open
    ensures e == Edge(spokes[j].inner, spokes[j].outer) || e == Edge(spokes[j].outer, spokes[j].inner)
  {
    hide Simple, SharesSpoke;
    HolderHasEnds(r[k], e);
    HolderHasEnds(r[l], e);
    if e.a != hub {
      assert MeetAt(spokes, k, l, e.a);
      j :| 0 <= j < 4 && Between(k, l, j) && (IsEnd(spokes[j], e.a) || TouchesAt(spokes[j], e.a));
      if e.b != hub {
        assert MeetAt(spokes, k, l, e.b);
        var i :| 0 <= i < 4 && Between(k, l, i) && (IsEnd(spokes[i], e.b) || TouchesAt(spokes[i], e.b));
        assert i == j;
      } else {
        assert !spokes[j].touching && spokes[j].inner == hub;
      }
    } else {
      assert MeetAt(spokes, k, l, e.b);
      j :| 0 <= j < 4 && Between(k, l, j) && (IsEnd(spokes[j], e.b) || TouchesAt(spokes[j], e.b));
      assert !spokes[j].touching && spokes[j].inner == hub;
    }
  }

  lemma HolderHasEnds(ring: seq<Point2>, e: Edge)
    requires Holds(ring, e)
    ensures e.a in ring && e.b in ring
  {
    if Has(ring, e) { var i := EdgeEnds(ring, e); } else { var i := EdgeEnds(ring, Rev(e)); }
  }

  lemma NotHeldThrice(hub: Point2, r: seq<seq<Point2>>, spokes: seq<Spoke>, k: nat, l: nat, q: nat, e: Edge)
    requires Fan(hub, r, spokes) && k < 4 && l < 4 && k != l && e.a != e.b && Holds(r[k], e) && Holds(r[l], e)
    requires q < 4 && q != k && q != l
    ensures !Holds(r[q], e)
  {
    var j := HeldTwice(hub, r, spokes, k, l, e);
    if Holds(r[q], e) {
      var i := HeldTwice(hub, r, spokes, q, k, e);
      var i' := HeldTwice(hub, r, spokes, q, l, e);
      assert false;
    }
  }

  /** Then it is there once in each direction, and nowhere else. */
  lemma HeldBothWays(hub: Point2, r: seq<seq<Point2>>, spokes: seq<Spoke>, k: nat, l: nat, e: Edge)
    requires Fan(hub, r, spokes) && k < 4 && l < 4 && k != l && e.a != e.b && Holds(r[k], e) && Holds(r[l], e)
    ensures Directed(AllEdges(r), e) == 1 && Directed(AllEdges(r), Rev(e)) == 1
  {
    var j := HeldTwice(hub, r, spokes, k, l, e);
    hide Simple, Has, AllEdges, MeetAt;
    forall q | 0 <= q < 4 && q != k && q != l ensures !Holds(r[q], e) { NotHeldThrice(hub, r, spokes, k, l, q, e); }
    var before := if l == After(k) then k else l;
    var after := After(before);
    assert SharesSpoke(r[before], r[after], spokes[after]);
    FanRings(hub, r, spokes);
    hide Fan;
    NotBothWays(r[before], Edge(spokes[j].outer, spokes[j].inner));
    NotBothWays(r[after], Edge(spokes[j].inner, spokes[j].outer));
    AllDirected(r, e);
    AllDirected(r, Rev(e));
  }

  /** Shared edges cancel in direction. */
  lemma FanCancels(hub: Point2, r: seq<seq<Point2>>, spokes: seq<Spoke>)
    requires Fan(hub, r, spokes)
    ensures DirectionsCancel(AllEdges(r))
  {
    assert |r| == 4;
    hide Fan, AllEdges, Has, Key, Count, Directed;
    forall e | Count(AllEdges(r), Key(e)) != 1 ensures Directed(AllEdges(r), e) == Directed(AllEdges(r), Rev(e)) {
      if e.a != e.b { EdgeCancels(hub, r, spokes, e); }
    }
  }

  lemma EdgeCancels(hub: Point2, r: seq<seq<Point2>>, spokes: seq<Spoke>, e: Edge)
    requires Fan(hub, r, spokes) && e.a != e.b && Count(AllEdges(r), Key(e)) != 1
    ensures Directed(AllEdges(r), e) == Directed(AllEdges(r), Rev(e))
  {
    if k, l :| 0 <= k < 4 && 0 <= l < 4 && k != l && Holds(r[k], e) && Holds(r[l], e) {
      HeldBothWays(hub, r, spokes, k, l, e);
    } else {
      assert forall k :: 0 <= k < 4 ==> r[k] == [] || Simple(r[k]);
      hide AllEdges, Key, Count, Fan;
      CountDirected(AllEdges(r), e);
      AllDirected(r, e);
      AllDirected(r, Rev(e));
      forall k | 0 <= k < 4 ensures HoldEither(r[k], e) == if Holds(r[k], e) then 1 else 0 { HeldOnce(r[k], e); }
      AtMostOne(HoldEither(r[0], e), HoldEither(r[1], e), HoldEither(r[2], e), HoldEither(r[3], e));
    }
  }

  ghost function HoldEither(ring: seq<Point2>, e: Edge): nat { Hold(ring, e) + Hold(ring, Rev(e)) }

  lemma HeldOnce(ring: seq<Point2>, e: Edge)
    requires ring == [] || Simple(ring)
    ensures HoldEither(ring, e) == if Holds(ring, e) then 1 else 0
  {
    hide Simple;
    if Has(ring, e) {
      NonEmptyHolder(ring, e);
      NotBothWays(ring, e);
    }
  }

  lemma AtMostOne(a: nat, b: nat, c: nat, d: nat)
    requires a <= 1 && b <= 1 && c <= 1 && d <= 1
    requires a == 0 || (b == 0 && c == 0 && d == 0)
    requires b == 0 || (c == 0 && d == 0)
    requires c == 0 || d == 0
    ensures a + b + c + d <= 1
  {
  }

  lemma NonEmptyHolder(ring: seq<Point2>, e: Edge)
    requires Has(ring, e)
    ensures ring != []
  {
  }

  /** A spoke's edge occurs twice, so it is no boundary edge. */
  lemma SpokeNotSingle(hub: Point2, r: seq<seq<Point2>>, spokes: seq<Spoke>, k: nat, e: Edge)
    requires Fan(hub, r, spokes) && k < 4 && spokes[After(k)].open
    requires var s := spokes[After(k)]; e == Edge(s.inner, s.outer) || e == Edge(s.outer, s.inner)
    ensures Count(AllEdges(r), Key(e)) != 1
  {
    hide AllEdges, Has, Key, Count, Simple, MeetAt;
    assert SharesSpoke(r[k], r[After(k)], spokes[After(k)]);
    HeldBothWays(hub, r, spokes, k, After(k), e);
    CountDirected(AllEdges(r), e);
  }

  /** No two rings touch at v. */
  predicate Untouched(spokes: seq<Spoke>, v: Point2) { forall j :: 0 <= j < |spokes| ==> !TouchesAt(spokes[j], v) }

  /** Two rings do not both lead a boundary edge to one point. */
  lemma OneRingInto(hub: Point2, r: seq<seq<Point2>>, spokes: seq<Spoke>, k: nat, l: nat, e: Edge, f: Edge)
    requires Fan(hub, r, spokes) && k < 4 && l < 4 && k != l && Has(r[k], e) && Has(r[l], f) && e.b == f.b
    requires e.b == hub ==> spokes[After(k)].open || spokes[After(l)].open
    requires Untouched(spokes, e.b)
    ensures Count(AllEdges(r), Key(e)) != 1 || Count(AllEdges(r), Key(f)) != 1
  {
    var v := e.b;
    HolderHasEnds(r[k], e);
    HolderHasEnds(r[l], f);
    hide AllEdges, Has, Key, Count;
    if v == hub {
      var q, g := if spokes[After(k)].open then k else l, if spokes[After(k)].open then e else f;
      var s := spokes[After(q)];
      assert SharesSpoke(r[q], r[After(q)], s) && s.inner == hub;
      OneInto(r[q], g, Edge(s.outer, s.inner));
      SpokeNotSingle(hub, r, spokes, q, g);
    } else {
      assert MeetAt(spokes, k, l, v);
      var j :| 0 <= j < 4 && Between(k, l, j) && (IsEnd(spokes[j], v) || TouchesAt(spokes[j], v));
      var before := if l == After(k) then k else l;
      var into, out := if before == k then e else f, if before == k then f else e;
      var s := spokes[After(before)];
      assert j == After(before) && SharesSpoke(r[before], r[After(before)], s);
      if v == s.inner {
        OneInto(r[before], into, Edge(s.outer, s.inner));
        SpokeNotSingle(hub, r, spokes, before, into);
      } else {
        OneInto(r[After(before)], out, Edge(s.inner, s.outer));
        SpokeNotSingle(hub, r, spokes, before, out);
      }
    }
  }

  /** Of any two rings with the hub, one is followed by an open spoke. */
  ghost predicate HubInside(hub: Point2, r: seq<seq<Point2>>, spokes: seq<Spoke>)
    requires |r| == |spokes| == 4
  {
    forall k, l :: 0 <= k < 4 && 0 <= l < 4 && k != l && hub in r[k] && hub in r[l] ==>
      spokes[After(k)].open || spokes[After(l)].open
  }

  ghost function Own(r: seq<seq<Point2>>, k: nat): seq<Edge>
    requires |r| == 4 && k < 4
  {
    Singles(EdgesOf(r[k]), AllEdges(r), true)
  }

  lemma OwnInward(r: seq<seq<Point2>>, k: nat, v: Point2)
    requires |r| == 4 && k < 4 && (r[k] == [] || Simple(r[k]))
    ensures Inward(Own(r, k), v) <= 1
  {
    hide AllEdges, EdgesOf, Singles, Inward, Simple;
    SinglesInward(EdgesOf(r[k]), AllEdges(r), v);
    RingInward(r[k], v);
  }

  lemma OwnEdge(r: seq<seq<Point2>>, k: nat, v: Point2) returns (e: Edge)
    requires |r| == 4 && k < 4 && Inward(Own(r, k), v) > 0
    ensures Has(r[k], e) && e.b == v && Count(AllEdges(r), Key(e)) == 1
  {
    hide AllEdges, EdgesOf, Count, Key;
    e := InwardMember(Own(r, k), v);
    SinglesMember(EdgesOf(r[k]), AllEdges(r), e);
  }

  lemma BoundaryIsOwn(r: seq<seq<Point2>>)
    requires |r| == 4
    ensures Singles(AllEdges(r), AllEdges(r), true) == Own(r, 0) + Own(r, 1) + Own(r, 2) + Own(r, 3)
  {
    hide EdgesOf, Singles;
    var a, b, c, d, all := EdgesOf(r[0]), EdgesOf(r[1]), EdgesOf(r[2]), EdgesOf(r[3]), AllEdges(r);
    SinglesConcat(a, b, all);
    SinglesConcat(a + b, c, all);
    SinglesConcat(a + b + c, d, all);
  }

  lemma BoundaryByRing(r: seq<seq<Point2>>, v: Point2)
    requires |r| == 4
    ensures Inward(Singles(AllEdges(r), AllEdges(r), true), v)
         == Inward(Own(r, 0), v) + Inward(Own(r, 1), v) + Inward(Own(r, 2), v) + Inward(Own(r, 3), v)
  {
    hide AllEdges, Own, Singles, Inward;
    BoundaryIsOwn(r);
    var p, q, x, y := Own(r, 0), Own(r, 1), Own(r, 2), Own(r, 3);
    InwardConcat(p, q, v);
    InwardConcat(p + q, x, v);
    InwardConcat(p + q + x, y, v);
  }

  /** At most one boundary edge leads to a point. */
  lemma FewInto(hub: Point2, r: seq<seq<Point2>>, spokes: seq<Spoke>, v: Point2)
    requires Fan(hub, r, spokes) && (v == hub ==> HubInside(hub, r, spokes)) && Untouched(spokes, v)
    ensures Inward(Singles(AllEdges(r), AllEdges(r), true), v) <= 1
  {
    hide Singles, AllEdges, Own, Inward, Has, Count, Key, Simple, MeetAt, SharesSpoke, Untouched;
    BoundaryByRing(r, v);
    forall k | 0 <= k < 4 ensures Inward(Own(r, k), v) <= 1 { OwnInward(r, k, v); }
    if k :| 0 <= k < 4 && Inward(Own(r, k), v) > 0 {
      forall l | 0 <= l < 4 && l != k ensures Inward(Own(r, l), v) == 0 { SoleInto(hub, r, spokes, k, l, v); }
    }
  }

  lemma FanTargets(hub: Point2, r: seq<seq<Point2>>, spokes: seq<Spoke>)
    requires Fan(hub, r, spokes) && HubInside(hub, r, spokes) && forall v :: Untouched(spokes, v)
    ensures SingleTargets(Singles(AllEdges(r), AllEdges(r), true))
  {
    assert |r| == 4;
    hide Fan, Singles, AllEdges, Inward, HubInside, Untouched;
    var boundary := Singles(AllEdges(r), AllEdges(r), true);
    forall v ensures Inward(boundary, v) <= 1 { FewInto(hub, r, spokes, v); }
    FewInward(boundary);
  }

  lemma SoleInto(hub: Point2, r: seq<seq<Point2>>, spokes: seq<Spoke>, k: nat, l: nat, v: Point2)
    requires Fan(hub, r, spokes) && (v == hub ==> HubInside(hub, r, spokes)) && k < 4 && l < 4 && k != l
    requires Inward(Own(r, k), v) > 0 && Untouched(spokes, v)
    ensures Inward(Own(r, l), v) == 0
  {
    hide Own, Inward, Count, Key, Simple, MeetAt, SharesSpoke, AllEdges, Untouched;
    var e := OwnEdge(r, k, v);
    HolderHasEnds(r[k], e);
    if Inward(Own(r, l), v) > 0 {
      var f := OwnEdge(r, l, v);
      HolderHasEnds(r[l], f);
      OneRingInto(hub, r, spokes, k, l, e, f);
      assert false;
    }
  }

  // ---- passing through a point ----

  lemma RingFlux(ring: seq<Point2>, v: Point2)
    ensures Total(EdgesOf(ring), Flux(v)) == 0.0
  {
    hide Flux, PathEdges;
    if ring != [] { PathFlux(ring[0], ring[1..] + [ring[0]], v); }
  }

  lemma AllFlux(r: seq<seq<Point2>>, v: Point2)
    requires |r| == 4
    ensures Total(AllEdges(r), Flux(v)) == 0.0
  {
    hide Flux, EdgesOf;
    var a, b, c, d := EdgesOf(r[0]), EdgesOf(r[1]), EdgesOf(r[2]), EdgesOf(r[3]);
    RingFlux(r[0], v);
    RingFlux(r[1], v);
    RingFlux(r[2], v);
    RingFlux(r[3], v);
    TotalConcat(a, b, Flux(v));
    TotalConcat(a + b, c, Flux(v));
    TotalConcat(a + b + c, d, Flux(v));
  }

  lemma RingLoopFree(ring: seq<Point2>)
    requires ring == [] || Simple(ring)
    ensures LoopFree(EdgesOf(ring))
  {
    hide RingEdges;
    forall i | 0 <= i < |EdgesOf(ring)| ensures EdgesOf(ring)[i].a != EdgesOf(ring)[i].b {
      RingEdgesAt(ring, 0);
      RingEdgesAt(ring, i);
    }
  }

  lemma AllLoopFree(r: seq<seq<Point2>>)
    requires |r| == 4 && forall k :: 0 <= k < 4 ==> r[k] == [] || Simple(r[k])
    ensures LoopFree(AllEdges(r)) && LoopFree(Singles(AllEdges(r), AllEdges(r), true))
  {
    hide EdgesOf, Simple, Singles;
    RingLoopFree(r[0]);
    RingLoopFree(r[1]);
    RingLoopFree(r[2]);
    RingLoopFree(r[3]);
    SinglesLoopFree(AllEdges(r), AllEdges(r), true);
  }

  lemma FanRings(hub: Point2, r: seq<seq<Point2>>, spokes: seq<Spoke>)
    requires Fan(hub, r, spokes)
    ensures |r| == |spokes| == 4 && forall k :: 0 <= k < 4 ==> r[k] == [] || Simple(r[k])
  {
  }

  /** Away from the hub and from where rings touch, the boundary passes a point once. */
  lemma FanOnce(hub: Point2, r: seq<seq<Point2>>, spokes: seq<Spoke>, v: Point2)
    requires |r| == 4 && Fan(hub, r, spokes) && v != hub && Untouched(spokes, v)
    ensures OnceThrough(Singles(AllEdges(r), AllEdges(r), true), v)
  {
    hide *;
    var boundary := Singles(AllEdges(r), AllEdges(r), true);
    FanRings(hub, r, spokes);
    FewInto(hub, r, spokes, v);
    AllLoopFree(r);
    AllFlux(r, v);
    FanCancels(hub, r, spokes);
    FluxAntisymmetric(v);
    BoundaryTotal(AllEdges(r), Flux(v));
    OnceInOnceOut(boundary, v);
  }
}
