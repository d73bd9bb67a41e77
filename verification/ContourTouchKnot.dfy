/** A fan whose rings touch at the last spoke while the second is not open: its boundary is
    a knot, and merging counts two of the rings negatively. */
module ContourTouchKnot {
  import opened ContourGeometry
  import opened ContourTrace
  import opened ContourMerge
  import opened ContourMergeArea
  import opened ContourMergeForward
  import opened ContourWheel
  import opened ContourFan
  import opened ContourPinch
  import opened ContourTouch
  import opened ContourTouchHubs
  import opened ContourKnot

  ghost predicate KnottedFan(hub: Point2, r: seq<seq<Point2>>, spokes: seq<Spoke>) {
    TouchFan(hub, r, spokes) && AllThere(r) && |spokes| == 4 && spokes[3].touching && !spokes[1].open
  }

  lemma KnotShape(hub: Point2, r: seq<seq<Point2>>, spokes: seq<Spoke>)
    requires KnottedFan(hub, r, spokes)
    ensures AllThere(r) && |spokes| == 4 && spokes[0].open && !spokes[1].open && spokes[2].open && !spokes[3].open
    ensures TouchFan(hub, r, spokes) && spokes[3].touching && forall k :: 0 <= k < 4 ==> |r[k]| >= 3
    ensures Wide(Shares(r, spokes))
  {
    hide TouchFan, Wide, Shares;
    TouchNeighbours(hub, r, spokes, 3);
    SharesWide(hub, r, spokes);
    forall k | 0 <= k < 4 ensures |r[k]| >= 3 { TouchFacts(hub, r, spokes, k); }
  }

  /** Where a ring's share begins and ends, by the ring's vertices. */
  ghost predicate ShareEnds(ring: seq<Point2>, left: bool, right: bool, own: seq<Edge>) {
    && |ring| >= 3 && |own| >= 2
    && own[0].a == ring[if left then 1 else 0]
    && own[|own| - 2].b == ring[if right then |ring| - 2 else |ring| - 1]
    && own[|own| - 1] == Edge(ring[|ring| - 1], ring[0])
    && ChainIn(own, 0, if right then |own| - 1 else |own|)
    && forall i :: 0 <= i < |own| - 1 ==> InnerVertex(ring, own[i].b) || (!right && i == |own| - 2)
  }

  ghost predicate InnerVertex(ring: seq<Point2>, v: Point2) { exists x :: 0 < x < |ring| - 1 && ring[x] == v }

  lemma RunsEnd(ring: seq<Point2>, left: Spoke, right: Spoke, own: seq<Edge>)
    requires |ring| >= 3 && High(|ring|, right) >= 0 && Runs(ring, Low(left), High(|ring|, right), own)
    ensures ShareEnds(ring, left.open, right.open, own)
  {
    var lo, hi := Low(left), High(|ring|, right);
    forall i | 0 <= i < |own| - 1 ensures InnerVertex(ring, own[i].b) || (!right.open && i == |own| - 2) {
      assert own[i].b == ring[lo + i + 1];
    }
    forall x, y | 0 <= x && y == x + 1 < (if right.open then |own| - 1 else |own|) ensures own[x].b == own[y].a {
      assert own[x].b == ring[lo + x + 1];
      assert y < hi - lo ==> own[y].a == ring[lo + y];
    }
  }

  lemma ShareShape(hub: Point2, r: seq<seq<Point2>>, spokes: seq<Spoke>, k: nat)
    requires KnottedFan(hub, r, spokes) && k < 4
    ensures AllThere(r) && |spokes| == 4 && ShareEnds(r[k], spokes[k].open, spokes[After(k)].open, Shares(r, spokes)[k])
  {
    hide TouchFan, Shares, Share, ShareEnds, Runs, Wide;
    KnotShape(hub, r, spokes);
    ShareRuns(hub, r, spokes, k);
    ShareOf(r, spokes, k);
    RunsEnd(r[k], spokes[k], spokes[After(k)], Shares(r, spokes)[k]);
  }

  lemma JoinedChain(own: seq<seq<Edge>>, k: nat, n: nat)
    requires |own| == 4 && k < 4 && n <= |own[k]| && ChainIn(own[k], 0, n)
    ensures ChainIn(Joined(own), Start(own, k), Start(own, k) + n)
  {
    var all, from := Joined(own), Start(own, k);
    Starts(own);
    assert from + |own[k]| <= |all|;
    hide Start, Joined;
    forall x, y | from <= x && y == x + 1 < from + n ensures all[x].b == all[y].a {
      JoinedAt(own, k, x - from);
      JoinedAt(own, k, y - from);
      var i, j := x - from, y - from;
      assert own[k][i].b == own[k][j].a;
    }
  }

  /** The shares, end to end. */
  ghost predicate EndToEnd(own: seq<seq<Edge>>) {
    && Wide(own)
    && ChainIn(own[0], 0, |own[0]|) && ChainIn(own[1], 0, |own[1]| - 1)
    && ChainIn(own[2], 0, |own[2]| - 1) && ChainIn(own[3], 0, |own[3]| - 1)
    && own[0][|own[0]| - 1].b == own[3][|own[3]| - 1].a && own[3][|own[3]| - 2].b == own[0][0].a
    && own[1][|own[1]| - 2].b == own[2][0].a && own[2][|own[2]| - 1].b == own[1][|own[1]| - 1].a
    && own[1][|own[1]| - 1].b == own[1][0].a
    && own[3][|own[3]| - 1].b == own[3][0].a == own[2][|own[2]| - 1].a == own[2][|own[2]| - 2].b
  }

  lemma SharesEnd(hub: Point2, r: seq<seq<Point2>>, spokes: seq<Spoke>)
    requires KnottedFan(hub, r, spokes)
    ensures AllThere(r) && |spokes| == 4 && EndToEnd(Shares(r, spokes))
  {
    hide TouchFan, Shares, ChainIn, InnerVertex, KnottedFan;
    KnotShape(hub, r, spokes);
    ShareShape(hub, r, spokes, 0);
    ShareShape(hub, r, spokes, 1);
    ShareShape(hub, r, spokes, 2);
    ShareShape(hub, r, spokes, 3);
    OpenEnds(hub, r, spokes, 3);
    OpenEnds(hub, r, spokes, 1);
    TouchedFirst(hub, r, spokes, 3);
    ChainShorter(Shares(r, spokes)[2]);
  }

  lemma ChainShorter(own: seq<Edge>)
    requires |own| > 0 && ChainIn(own, 0, |own|)
    ensures ChainIn(own, 0, |own| - 1)
  {
  }

  lemma EndsTie(own: seq<seq<Edge>>)
    requires EndToEnd(own) && LoopFree(Joined(own))
    ensures Knot(Joined(own), Start(own, 1), Start(own, 2), Start(own, 3))
  {
    Starts(own);
    hide LoopFree, Joined, Start, ChainIn;
    JoinedChain(own, 0, |own[0]|);
    JoinedChain(own, 1, |own[1]| - 1);
    JoinedChain(own, 2, |own[2]| - 1);
    JoinedChain(own, 3, |own[3]| - 1);
    JoinedAt(own, 0, 0);
    JoinedAt(own, 0, |own[0]| - 1);
    JoinedAt(own, 1, 0);
    JoinedAt(own, 1, |own[1]| - 2);
    JoinedAt(own, 1, |own[1]| - 1);
    JoinedAt(own, 2, 0);
    JoinedAt(own, 2, |own[2]| - 2);
    JoinedAt(own, 2, |own[2]| - 1);
    JoinedAt(own, 3, 0);
    JoinedAt(own, 3, |own[3]| - 2);
    JoinedAt(own, 3, |own[3]| - 1);
  }

  // ---- nothing else meets ----

  /** The inner point of an open spoke touches nothing. */
  lemma SpokeUntouched(hub: Point2, r: seq<seq<Point2>>, spokes: seq<Spoke>, k: nat)
    requires TouchFan(hub, r, spokes) && AllThere(r) && |spokes| == 4 && k < 4 && spokes[After(k)].open
    ensures Untouched(spokes, r[After(k)][0]) && r[After(k)][0] != hub
  {
    var l := After(k);
    var v := r[l][0];
    OpenEnds(hub, r, spokes, k);
    TouchFacts(hub, r, spokes, l);
    assert v in r[k] && v in r[l];
    hide TouchFan, Fan, Shaped, AllThere;
    forall j | 0 <= j < 4 ensures !TouchesAt(spokes[j], v) {
      if TouchesAt(spokes[j], v) {
        TouchBeside(hub, r, spokes, j, k);
        TouchBeside(hub, r, spokes, j, l);
        TouchNeighbours(hub, r, spokes, j);
        assert false;
      }
    }
  }

  lemma OnceAtUntouched(hub: Point2, r: seq<seq<Point2>>, spokes: seq<Spoke>, v: Point2)
    requires KnottedFan(hub, r, spokes) && v != hub && Untouched(spokes, v)
    ensures AllThere(r) && |spokes| == 4 && OnceThrough(Joined(Shares(r, spokes)), v)
  {
    hide TouchFan, Shares, Joined, Singles, AllEdges, Untouched, OnceThrough;
    BoundaryIsShares(hub, r, spokes);
    assert Fan(hub, r, spokes) by { TouchFacts(hub, r, spokes, 0); }
    hide Fan;
    FanOnce(hub, r, spokes, v);
  }

  lemma OnceAtInner(hub: Point2, r: seq<seq<Point2>>, spokes: seq<Spoke>, k: nat, v: Point2)
    requires KnottedFan(hub, r, spokes) && k < 4 && |r| == 4 && InnerVertex(r[k], v)
    ensures AllThere(r) && |spokes| == 4 && OnceThrough(Joined(Shares(r, spokes)), v)
  {
    hide TouchFan, Shares, Joined, OnceThrough, Untouched;
    var x :| 0 < x < |r[k]| - 1 && r[k][x] == v;
    InnerUntouched(hub, r, spokes, k, x);
    OnceAtUntouched(hub, r, spokes, v);
  }

  /** The middle two shares pass each of their points once, up to the meeting point. */
  lemma MiddleOnce(hub: Point2, r: seq<seq<Point2>>, spokes: seq<Spoke>, x: nat)
    requires KnottedFan(hub, r, spokes) && AllThere(r) && |spokes| == 4
    requires var own := Shares(r, spokes); Start(own, 1) <= x < Start(own, 3) - 2 && x != Start(own, 2) - 1
    ensures x < |Joined(Shares(r, spokes))| && OnceThrough(Joined(Shares(r, spokes)), Joined(Shares(r, spokes))[x].b)
  {
    hide TouchFan, Shares, Joined, OnceThrough, KnottedFan, InnerVertex, Start, ChainIn;
    var own := Shares(r, spokes);
    Starts(own);
    KnotShape(hub, r, spokes);
    var k, i := JoinedFind(own, x);
    ShareShape(hub, r, spokes, k);
    assert k == 1 || k == 2;
    OnceAtInner(hub, r, spokes, k, own[k][i].b);
  }

  lemma SharesApart(hub: Point2, r: seq<seq<Point2>>, spokes: seq<Spoke>)
    requires KnottedFan(hub, r, spokes) && AllThere(r) && |spokes| == 4
    requires var own := Shares(r, spokes); Knot(Joined(own), Start(own, 1), Start(own, 2), Start(own, 3))
    ensures var own := Shares(r, spokes); Apart(Joined(own), Start(own, 1), Start(own, 2), Start(own, 3))
  {
    hide TouchFan, Shares, Joined, OnceThrough, KnottedFan, InnerVertex, ChainIn, Start, Knot, Wide, AtHub;
    var own, n := Shares(r, spokes), |Joined(Shares(r, spokes))|;
    var all := Joined(own);
    KnotShape(hub, r, spokes);
    assert |own[0]| >= 2 && |own[3]| >= 2 by { WideAt(own, 0); WideAt(own, 3); }
    Starts(own);
    assert OnceThrough(all, all[0].a) by {
      JoinedAt(own, 0, 0);
      ShareShape(hub, r, spokes, 0);
      assert InnerVertex(r[0], r[0][1]) by { InnerSecond(r[0]); }
      OnceAtInner(hub, r, spokes, 0, r[0][1]);
    }
    assert OnceThrough(all, all[n - 1].a) by {
      JoinedAt(own, 3, |own[3]| - 1);
      ShareShape(hub, r, spokes, 3);
      OpenEnds(hub, r, spokes, 3);
      SpokeUntouched(hub, r, spokes, 3);
      OnceAtUntouched(hub, r, spokes, r[0][0]);
    }
    MeetingEdges(hub, r, spokes);
    forall x | Start(own, 1) <= x < Start(own, 3) - 2 && x != Start(own, 2) - 1 ensures OnceThrough(all, all[x].b) {
      MiddleOnce(hub, r, spokes, x);
    }
  }

  lemma WideAt(own: seq<seq<Edge>>, k: nat)
    requires Wide(own) && k < 4
    ensures |own[k]| >= 2
  {
  }

  lemma InnerSecond(ring: seq<Point2>)
    requires |ring| >= 3
    ensures InnerVertex(ring, ring[1])
  {
  }

  /** Only four edges meet where the rings touch. */
  lemma MeetingEdges(hub: Point2, r: seq<seq<Point2>>, spokes: seq<Spoke>)
    requires KnottedFan(hub, r, spokes) && AllThere(r) && |spokes| == 4
    requires var own := Shares(r, spokes); Knot(Joined(own), Start(own, 1), Start(own, 2), Start(own, 3))
    ensures var own := Shares(r, spokes);
      var all, s3 := Joined(own), Start(own, 3);
      && 2 <= s3 < |all|
      && (forall x :: 0 <= x < |all| && all[x].b == all[s3].a ==> x == s3 - 2 || x == |all| - 1)
      && (forall x :: 0 <= x < |all| && all[x].a == all[s3].a ==> x == s3 - 1 || x == s3)
  {
    hide TouchFan, Shares, Joined, KnottedFan, ChainIn, Start, Knot, GatedAt, ShareEnds, Lead;
    var own, v := Shares(r, spokes), spokes[3].outer;
    KnotShape(hub, r, spokes);
    forall k | 0 <= k < 4 ensures GatedAt(own, v, 3, k) { SharesGated(hub, r, spokes, 3, k); }
    HubThere(own, v, 3);
    Starts(own);
    var h := HubAt(own, v, 3);
    assert h.at == v by { HubPlace(own, v, 3); }
    assert Joined(own)[h.out2].a == v;
  }

  // ---- what is lost ----

  lemma TotalOne(e: Edge, w: Edge -> real)
    ensures Total([e], w) == w(e)
  {
    assert [e][..0] == [];
  }

  lemma TotalParts(e: seq<Edge>, lo: nat, hi: nat, w: Edge -> real)
    requires lo <= hi < |e|
    ensures Total(e, w) == Total(e[..lo], w) + Total(e[lo..hi] + [e[|e| - 1]], w) + Total(e[hi..|e| - 1], w)
  {
    hide Total;
    var n := |e| - 1;
    var p, q, x, y := e[..lo], e[lo..hi], e[hi..n], [e[n]];
    assert e == p + q + x + y;
    TotalConcat(p, q, w);
    TotalConcat(p + q, x, w);
    TotalConcat(p + q + x, y, w);
    TotalConcat(q, y, w);
  }

  lemma TotalAtMostOne(e: seq<Edge>, lo: nat, hi: nat, w: Edge -> real)
    requires lo <= hi <= lo + 1 && hi <= |e|
    ensures Total(e[lo..hi], w) == if lo < hi then w(e[lo]) else 0.0
  {
    if lo < hi {
      assert e[lo..hi] == [e[lo]];
      TotalOne(e[lo], w);
    } else {
      assert e[lo..hi] == [];
    }
  }

  /** A ring's sweep is that of its share and of its open spokes. */
  lemma ShareSweeps(hub: Point2, r: seq<seq<Point2>>, spokes: seq<Spoke>, k: nat)
    requires TouchFan(hub, r, spokes) && AllThere(r) && |spokes| == 4 && k < 4 && |r[k]| >= 3
    ensures LoopSum(r[k]) == Total(Share(r, spokes, k), Sweep)
         + (if spokes[k].open then Cross(r[k][0], r[k][1]) else 0.0)
         + (if spokes[After(k)].open then Cross(r[k][|r[k]| - 2], r[k][|r[k]| - 1]) else 0.0)
  {
    hide TouchFan, Shaped, LoopSum, Cross, Total, EdgesOf, Fan;
    var ring, left, right := r[k], spokes[k], spokes[After(k)];
    assert Shaped(ring, left, right) by { TouchFacts(hub, r, spokes, k); }
    RimIs(ring, left, right);
    var e, lo, hi, n := EdgesOf(ring), Low(left), High(|ring|, right), |ring|;
    assert Total(e, Sweep) == LoopSum(ring) by { EdgesSweep(ring); }
    TotalParts(e, lo, hi, Sweep);
    TotalAtMostOne(e, 0, lo, Sweep);
    TotalAtMostOne(e, hi, n - 1, Sweep);
    assert e[0..lo] == e[..lo];
    assert Share(r, spokes, k) == e[lo..hi] + [e[n - 1]];
  }

  lemma EdgesSweep(ring: seq<Point2>)
    requires ring != []
    ensures Total(EdgesOf(ring), Sweep) == LoopSum(ring)
  {
    RingEdgesTotal(ring);
  }

  lemma ShareSplits(own: seq<seq<Edge>>, k: nat)
    requires Wide(own) && k < 4
    ensures var all, from, n := Joined(own), Start(own, k), |own[k]| - 1;
      from + n < |all| && Total(own[k], Sweep) == Total(all[from..from + n], Sweep) + Sweep(all[from + n])
  {
    hide Sweep;
    var all, from, n := Joined(own), Start(own, k), |own[k]| - 1;
    JoinedAt(own, k, n);
    forall i | 0 <= i < n ensures all[from + i] == own[k][i] { JoinedAt(own, k, i); }
    assert own[k] == all[from..from + n] + [all[from + n]];
    AppendCounts(all[from..from + n], all[from + n], Sweep);
  }

  /** The walk takes the second and the third ring backwards. */
  lemma KnottedSweep(hub: Point2, r: seq<seq<Point2>>, spokes: seq<Spoke>)
    requires KnottedFan(hub, r, spokes) && AllThere(r) && |spokes| == 4
    requires var own := Shares(r, spokes); Knot(Joined(own), Start(own, 1), Start(own, 2), Start(own, 3))
    ensures var own := Shares(r, spokes);
      Reversed(Joined(own), Start(own, 1), Start(own, 2), Start(own, 3)) == LoopSum(r[1]) + LoopSum(r[2])
  {
    hide TouchFan, Shares, Joined, KnottedFan, Start, Knot, Total, Sweep, LoopSum, Share, Cross;
    var own := Shares(r, spokes);
    KnotShape(hub, r, spokes);
    ShareSweeps(hub, r, spokes, 1);
    ShareSweeps(hub, r, spokes, 2);
    ShareOf(r, spokes, 1);
    ShareOf(r, spokes, 2);
    ShareSplits(own, 1);
    ShareSplits(own, 2);
    Starts(own);
    OpenEnds(hub, r, spokes, 1);
    CrossTurns(r[2][0], r[2][1]);
  }

  lemma CrossTurns(p: Point2, q: Point2)
    ensures Cross(p, q) + Cross(q, p) == 0.0
  {
  }

  /** One walk takes the whole boundary, the middle two rings backwards. */
  lemma KnottedWalk(hub: Point2, r: seq<seq<Point2>>, spokes: seq<Spoke>)
    requires KnottedFan(hub, r, spokes) && |r| == 4
    ensures var boundary := Singles(AllEdges(r), AllEdges(r), true);
      |Trace(boundary)| == 1 && BackwardSum(boundary, Trace(boundary)) == LoopSum(r[1]) + LoopSum(r[2])
  {
    hide TouchFan, Shares, Joined, Start, Knot, Apart, Singles, AllEdges, LoopSum, Trace, Reversed, LoopFree, Simple, EndToEnd;
    BoundaryIsShares(hub, r, spokes);
    var own := Shares(r, spokes);
    assert LoopFree(Joined(own)) by {
      TouchFacts(hub, r, spokes, 0);
      FanRings(hub, r, spokes);
      AllLoopFree(r);
    }
    SharesEnd(hub, r, spokes);
    EndsTie(own);
    SharesApart(hub, r, spokes);
    KnotWalk(Joined(own), Start(own, 1), Start(own, 2), Start(own, 3));
    KnottedSweep(hub, r, spokes);
  }
}
