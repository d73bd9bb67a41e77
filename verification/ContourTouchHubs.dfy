/** Where the rings of such a fan touch, the tracer meets the right edge first, unless they
    touch at the last spoke and the second is not open. */
module ContourTouchHubs {
  import opened Basics
  import opened ContourGeometry
  import opened ContourTrace
  import opened ContourMerge
  import opened ContourMergeForward
  import opened ContourWheel
  import opened ContourFan
  import opened ContourPinch
  import opened ContourTouch

  // ---- four sequences joined ----

  ghost function Joined(own: seq<seq<Edge>>): seq<Edge>
    requires |own| == 4
  {
    own[0] + own[1] + own[2] + own[3]
  }

  function Start(own: seq<seq<Edge>>, k: nat): nat
    requires k <= |own|
  {
    if k == 0 then 0 else Start(own, k - 1) + |own[k - 1]|
  }

  lemma Starts(own: seq<seq<Edge>>)
    requires |own| == 4
    ensures Start(own, 0) == 0 && Start(own, 1) == |own[0]| && Start(own, 2) == |own[0]| + |own[1]|
    ensures Start(own, 3) == |own[0]| + |own[1]| + |own[2]| && Start(own, 4) == |Joined(own)| == Start(own, 3) + |own[3]|
  {
    assert Start(own, 1) == Start(own, 0) + |own[0]|;
    assert Start(own, 2) == Start(own, 1) + |own[1]|;
    assert Start(own, 3) == Start(own, 2) + |own[2]|;
  }

  lemma JoinedAt(own: seq<seq<Edge>>, k: nat, i: nat)
    requires |own| == 4 && k < 4 && i < |own[k]|
    ensures Start(own, k) + i < Start(own, k + 1) <= |Joined(own)| && Joined(own)[Start(own, k) + i] == own[k][i]
  {
    Starts(own);
    hide Start;
  }

  lemma JoinedFind(own: seq<seq<Edge>>, x: nat) returns (k: nat, i: nat)
    requires |own| == 4 && x < |Joined(own)|
    ensures k < 4 && i < |own[k]| && x == Start(own, k) + i && Joined(own)[x] == own[k][i]
  {
    Starts(own);
    k := if x < Start(own, 1) then 0 else if x < Start(own, 2) then 1 else if x < Start(own, 3) then 2 else 3;
    i := x - Start(own, k);
    hide Start;
  }

  lemma StartsApart(own: seq<seq<Edge>>, k: nat, i: nat, l: nat, j: nat)
    requires |own| == 4 && k < 4 && l < 4 && i < |own[k]| && j < |own[l]|
    ensures Start(own, k) + i == Start(own, l) + j <==> k == l && i == j
    ensures k < l ==> Start(own, k) + i < Start(own, l) + j
  {
    Starts(own);
    hide Start;
  }

  // ---- the shares of the rings ----

  ghost function Share(r: seq<seq<Point2>>, spokes: seq<Spoke>, k: nat): seq<Edge>
    requires |r| == |spokes| == 4 && k < 4 && r[k] != []
  {
    Rim(r, spokes, k) + [Closing(r, k)]
  }

  ghost predicate AllThere(r: seq<seq<Point2>>) { |r| == 4 && forall k :: 0 <= k < 4 ==> r[k] != [] }

  ghost function Shares(r: seq<seq<Point2>>, spokes: seq<Spoke>): (own: seq<seq<Edge>>)
    requires AllThere(r) && |spokes| == 4
    ensures |own| == 4
  {
    [Share(r, spokes, 0), Share(r, spokes, 1), Share(r, spokes, 2), Share(r, spokes, 3)]
  }

  lemma BoundaryIsShares(hub: Point2, r: seq<seq<Point2>>, spokes: seq<Spoke>)
    requires TouchFan(hub, r, spokes)
    ensures AllThere(r) && |spokes| == 4 && Singles(AllEdges(r), AllEdges(r), true) == Joined(Shares(r, spokes))
  {
    forall k | 0 <= k < 4 ensures r[k] != [] { TouchFacts(hub, r, spokes, k); }
    hide TouchFan, Singles, AllEdges, Own, Rim;
    OwnIs(hub, r, spokes, 0);
    OwnIs(hub, r, spokes, 1);
    OwnIs(hub, r, spokes, 2);
    OwnIs(hub, r, spokes, 3);
    BoundaryIsOwn(r);
  }

  /** The edges of a share run along the vertices of the ring from lo to hi, and the last
      closes the ring. */
  ghost predicate Runs(ring: seq<Point2>, lo: nat, hi: nat, own: seq<Edge>) {
    && lo < hi < |ring| && |own| == hi - lo + 1 && own[hi - lo] == Edge(ring[|ring| - 1], ring[0])
    && forall i :: 0 <= i < hi - lo ==> own[i] == Edge(ring[lo + i], ring[lo + i + 1])
  }

  lemma RingRuns(ring: seq<Point2>, left: Spoke, right: Spoke)
    requires Shaped(ring, left, right)
    ensures var lo, hi, e := Low(left), High(|ring|, right), EdgesOf(ring);
      0 <= lo <= hi <= |e| && Runs(ring, lo, hi, e[lo..hi] + [Edge(ring[|ring| - 1], ring[0])])
  {
    RimIs(ring, left, right);
    hide EdgesOf, Shaped;
    var lo, hi, e := Low(left), High(|ring|, right), EdgesOf(ring);
    var own := e[lo..hi] + [Edge(ring[|ring| - 1], ring[0])];
    forall i | 0 <= i < hi - lo ensures own[i] == Edge(ring[lo + i], ring[lo + i + 1]) {
      assert own[i] == e[lo + i];
    }
  }

  lemma ShareRuns(hub: Point2, r: seq<seq<Point2>>, spokes: seq<Spoke>, k: nat)
    requires TouchFan(hub, r, spokes) && AllThere(r) && |spokes| == 4 && k < 4
    ensures High(|r[k]|, spokes[After(k)]) >= 0
    ensures Runs(r[k], Low(spokes[k]), High(|r[k]|, spokes[After(k)]), Share(r, spokes, k))
  {
    hide TouchFan, EdgesOf, Shaped, Runs, Fan, Simple;
    TouchFacts(hub, r, spokes, k);
    RingRuns(r[k], spokes[k], spokes[After(k)]);
  }

  function Width(own: seq<Edge>): int { |own| - 1 }

  /** The edges of a share at v: one in and one out, or none. */
  ghost predicate Gated(own: seq<Edge>, v: Point2, into: int, out: int) {
    forall i :: 0 <= i < |own| ==> (own[i].b == v <==> i == into) && (own[i].a == v <==> i == out)
  }

  lemma ShareGates(hub: Point2, r: seq<seq<Point2>>, spokes: seq<Spoke>, j: nat, k: nat)
    requires TouchFan(hub, r, spokes) && AllThere(r) && |spokes| == 4 && j < 4 && k < 4 && spokes[j].touching
    ensures var own, v := Share(r, spokes, k), spokes[j].outer;
      && (k == j ==> Gated(own, v, Width(own), 0))
      && (k == Before(j) ==> Gated(own, v, Width(own) - 1, Width(own)))
      && (k != j && k != Before(j) ==> Gated(own, v, -1, -1))
  {
    assert Simple(r[k]) && |r[k]| >= 3 by { TouchFacts(hub, r, spokes, k); }
    ShareRuns(hub, r, spokes, k);
    var own, lo, hi := Share(r, spokes, k), Low(spokes[k]), High(|r[k]|, spokes[After(k)]);
    if k == j {
      assert r[k][0] == spokes[j].outer && !spokes[j].open by { TouchedFirst(hub, r, spokes, j); }
      hide *;
      FirstGate(r[k], own, hi);
    } else if k == Before(j) {
      assert r[k][|r[k]| - 1] == spokes[j].outer && !spokes[j].open by { TouchedFirst(hub, r, spokes, j); }
      LastGate(r[k], lo, own);
    } else {
      if spokes[j].outer in r[k] { TouchBeside(hub, r, spokes, j, k); }
      hide TouchFan, Share, Fan, AllThere, Simple, Gated, Runs;
      NoGate(r[k], lo, hi, own, spokes[j].outer);
    }
  }

  lemma TouchedFirst(hub: Point2, r: seq<seq<Point2>>, spokes: seq<Spoke>, j: nat)
    requires TouchFan(hub, r, spokes) && AllThere(r) && |spokes| == 4 && j < 4 && spokes[j].touching
    ensures !spokes[j].open && r[j][0] == spokes[j].outer && r[Before(j)][|r[Before(j)]| - 1] == spokes[j].outer
  {
    TouchNeighbours(hub, r, spokes, j);
    TouchFacts(hub, r, spokes, j);
    TouchFacts(hub, r, spokes, Before(j));
  }

  lemma FirstGate(ring: seq<Point2>, own: seq<Edge>, hi: nat)
    requires NoRepeats(ring) && |ring| >= 2 && Runs(ring, 0, hi, own)
    ensures Gated(own, ring[0], Width(own), 0)
  {
  }

  lemma LastGate(ring: seq<Point2>, lo: nat, own: seq<Edge>)
    requires NoRepeats(ring) && |ring| >= 2 && Runs(ring, lo, |ring| - 1, own)
    ensures Gated(own, ring[|ring| - 1], Width(own) - 1, Width(own))
  {
    forall i | 0 <= i < |own|
      ensures own[i].b == ring[|ring| - 1] <==> i == Width(own) - 1
      ensures own[i].a == ring[|ring| - 1] <==> i == Width(own)
    {
      if i < |ring| - 1 - lo { assert own[i] == Edge(ring[lo + i], ring[lo + i + 1]); }
    }
  }

  lemma NoGate(ring: seq<Point2>, lo: nat, hi: nat, own: seq<Edge>, v: Point2)
    requires v !in ring && Runs(ring, lo, hi, own)
    ensures Gated(own, v, -1, -1)
  {
    forall i | 0 <= i < |own| ensures own[i].a != v && own[i].b != v {
      if i < hi - lo { assert own[i] == Edge(ring[lo + i], ring[lo + i + 1]); }
    }
  }

  // ---- the hub ----

  ghost predicate Wide(own: seq<seq<Edge>>) { |own| == 4 && forall k :: 0 <= k < 4 ==> |own[k]| >= 2 }

  function Range(from: nat, n: nat): (s: seq<nat>)
    ensures |s| == n && forall i :: 0 <= i < n ==> s[i] == from + i
  {
    seq(n, i => from + i)
  }

  /** Along the rims of the first j rings. */
  ghost function Lead(own: seq<seq<Edge>>, j: nat): seq<nat>
    requires Wide(own) && j <= 4
  {
    if j == 0 then [] else Lead(own, j - 1) + Range(Start(own, j - 1), |own[j - 1]| - 1)
  }

  /** The edges where rings touch at spoke j: into and out of the ring before it, then out
      of and into the ring after it. */
  ghost function HubAt(own: seq<seq<Edge>>, v: Point2, j: nat): Hub
    requires Wide(own) && j < 4
  {
    var a := Before(j);
    var x, y := Start(own, a) + |own[a]| - 2, Start(own, j);
    if j == 0 then Hub(v, y + |own[j]| - 1, x, y, x + 1, [])
    else Hub(v, x, y + |own[j]| - 1, x + 1, y, Lead(own, j))
  }

  ghost predicate GatedAt(own: seq<seq<Edge>>, v: Point2, j: nat, k: nat)
    requires |own| == 4 && k < 4
  {
    && (k == j ==> Gated(own[k], v, Width(own[k]), 0))
    && (k == Before(j) ==> Gated(own[k], v, Width(own[k]) - 1, Width(own[k])))
    && (k != j && k != Before(j) ==> Gated(own[k], v, -1, -1))
  }

  lemma EdgeAtHub(own: seq<seq<Edge>>, v: Point2, j: nat, x: nat)
    requires Wide(own) && j < 4 && x < |Joined(own)| && forall k :: 0 <= k < 4 ==> GatedAt(own, v, j, k)
    ensures var h := HubAt(own, v, j);
      && (Joined(own)[x].b == v <==> x == h.in1 || x == h.in2) && (Joined(own)[x].a == v <==> x == h.out1 || x == h.out2)
  {
    var k, i := JoinedFind(own, x);
    var a := Before(j);
    assert GatedAt(own, v, j, k);
    StartsApart(own, k, i, j, 0);
    StartsApart(own, k, i, j, |own[j]| - 1);
    StartsApart(own, k, i, a, |own[a]| - 2);
    StartsApart(own, k, i, a, |own[a]| - 1);
    hide Joined, Start, Lead;
  }

  lemma HubThere(own: seq<seq<Edge>>, v: Point2, j: nat)
    requires Wide(own) && j < 4 && forall k :: 0 <= k < 4 ==> GatedAt(own, v, j, k)
    ensures AtHub(Joined(own), HubAt(own, v, j))
    ensures var h := HubAt(own, v, j); if j == 0 then h.out1 < h.in1 else h.in1 < h.out1 < h.in2
  {
    var a := Before(j);
    JoinedAt(own, j, |own[j]| - 1);
    JoinedAt(own, a, |own[a]| - 1);
    StartsApart(own, if j == 0 then j else a, |own[if j == 0 then j else a]| - 1, if j == 0 then a else j, 0);
    hide Joined, Start, Lead, GatedAt;
    forall x | 0 <= x < |Joined(own)|
      ensures var h := HubAt(own, v, j);
        && (Joined(own)[x].b == v <==> x == h.in1 || x == h.in2) && (Joined(own)[x].a == v <==> x == h.out1 || x == h.out2)
    {
      EdgeAtHub(own, v, j, x);
    }
  }

  // ---- the leading path ----

  ghost predicate PassesTo(edges: seq<Edge>, i: nat) { i > 0 && Passage(edges, i - 1, i) }

  lemma LeadExtends(edges: seq<Edge>, lead: seq<nat>, to: nat, from: nat, n: nat)
    requires lead == [] || (Leads(edges, lead, to) && Passage(edges, to, from) && forall i :: 0 <= i < |lead| ==> lead[i] < from)
    requires lead == [] ==> from == 0
    requires 0 < n && forall i :: from < i < from + n ==> PassesTo(edges, i)
    ensures Leads(edges, lead + Range(from, n), from + n - 1)
  {
    hide Passage;
    var more := lead + Range(from, n);
    forall m | 0 < m < |more| ensures Passage(edges, more[m - 1], more[m]) {
      if m > |lead| {
        var x := more[m];
        assert x == from + (m - |lead|) && more[m - 1] == x - 1;
        assert PassesTo(edges, x);
      } else if m == |lead| {
        assert more[m] == from && more[m - 1] == to;
      } else {
        assert more[m] == lead[m] && more[m - 1] == lead[m - 1];
      }
    }
  }

  lemma {:induction false} LeadBelow(own: seq<seq<Edge>>, j: nat)
    requires Wide(own) && j <= 4
    ensures forall i :: 0 <= i < |Lead(own, j)| ==> Lead(own, j)[i] < Start(own, j)
  {
    if j > 0 { LeadBelow(own, j - 1); }
  }

  ghost predicate RimPasses(own: seq<seq<Edge>>, k: nat)
    requires Wide(own) && k < 4
  {
    forall i :: Start(own, k) < i < Start(own, k) + |own[k]| - 1 ==> PassesTo(Joined(own), i)
  }

  ghost predicate SpokePasses(own: seq<seq<Edge>>, k: nat)
    requires Wide(own) && k < 4
  {
    Start(own, k) >= 2 && Passage(Joined(own), Start(own, k) - 2, Start(own, k))
  }

  /** Along a rim, and from rim to rim over an open spoke, the boundary has one way. */
  lemma {:induction false} LeadGoesOn(own: seq<seq<Edge>>, j: nat)
    requires Wide(own) && 0 < j <= 4
    requires forall k :: 0 <= k < j ==> RimPasses(own, k)
    requires forall k :: 0 < k < j ==> SpokePasses(own, k)
    ensures Start(own, j) >= 2 && Leads(Joined(own), Lead(own, j), Start(own, j) - 2)
  {
    hide Joined, Passage, Leads, RimPasses, SpokePasses, Lead, Wide;
    if j > 1 { LeadGoesOn(own, j - 1); }
    LeadStep(own, j);
  }

  lemma LeadStep(own: seq<seq<Edge>>, j: nat)
    requires Wide(own) && 0 < j <= 4 && RimPasses(own, j - 1)
    requires j > 1 ==> SpokePasses(own, j - 1) && Leads(Joined(own), Lead(own, j - 1), Start(own, j - 1) - 2)
    ensures Start(own, j) >= 2 && Leads(Joined(own), Lead(own, j), Start(own, j) - 2)
  {
    hide Joined, Passage, Leads, PassesTo, Start, Lead;
    var edges, from, n := Joined(own), Start(own, j - 1), |own[j - 1]| - 1;
    var lead := Lead(own, j - 1);
    LeadUnfolds(own, j);
    LeadBelow(own, j - 1);
    if j > 1 { LeadsSome(edges, lead, from - 2); }
    LeadExtends(edges, lead, if j == 1 then 0 else from - 2, from, n);
  }

  lemma LeadsSome(edges: seq<Edge>, lead: seq<nat>, to: nat)
    requires Leads(edges, lead, to)
    ensures lead != []
  {
  }

  lemma LeadUnfolds(own: seq<seq<Edge>>, j: nat)
    requires Wide(own) && 0 < j <= 4
    ensures Start(own, j) == Start(own, j - 1) + |own[j - 1]|
    ensures Lead(own, j) == Lead(own, j - 1) + Range(Start(own, j - 1), |own[j - 1]| - 1)
    ensures j == 1 ==> Lead(own, j - 1) == [] && Start(own, j - 1) == 0
  {
  }

  // ---- the boundary ----

  lemma SharesWide(hub: Point2, r: seq<seq<Point2>>, spokes: seq<Spoke>)
    requires TouchFan(hub, r, spokes) && AllThere(r) && |spokes| == 4
    ensures Wide(Shares(r, spokes))
  {
    hide TouchFan, Share;
    var own := Shares(r, spokes);
    forall k | 0 <= k < 4 ensures |own[k]| >= 2 {
      ShareRuns(hub, r, spokes, k);
      assert own[k] == Share(r, spokes, k);
    }
  }

  /** Where one share edge ends at an inner vertex of a ring and another begins there. */
  lemma SharePassage(hub: Point2, r: seq<seq<Point2>>, spokes: seq<Spoke>, k: nat, x: nat, i: nat, j: nat)
    requires TouchFan(hub, r, spokes) && AllThere(r) && |spokes| == 4 && k < 4 && 0 < x < |r[k]| - 1
    requires var all := Joined(Shares(r, spokes)); i < |all| && 0 < j < |all| && all[i].b == all[j].a == r[k][x]
    ensures Passage(Joined(Shares(r, spokes)), i, j)
  {
    hide TouchFan, Shares, Joined, Singles, AllEdges, Untouched, Passage, OnceThrough;
    BoundaryIsShares(hub, r, spokes);
    InnerUntouched(hub, r, spokes, k, x);
    assert Fan(hub, r, spokes) by { TouchFacts(hub, r, spokes, k); }
    hide Fan;
    FanOnce(hub, r, spokes, r[k][x]);
    PassageAt(Joined(Shares(r, spokes)), i, j);
  }

  lemma RimsPass(hub: Point2, r: seq<seq<Point2>>, spokes: seq<Spoke>, k: nat)
    requires TouchFan(hub, r, spokes) && AllThere(r) && |spokes| == 4 && k < 4 && Wide(Shares(r, spokes))
    ensures RimPasses(Shares(r, spokes), k)
  {
    hide TouchFan, Shares, Joined, Start, PassesTo;
    var own := Shares(r, spokes);
    var from := Start(own, k);
    forall x | from < x < from + |own[k]| - 1 ensures PassesTo(Joined(own), x) {
      RimPassesAt(hub, r, spokes, k, x - from);
    }
  }

  lemma RimPassesAt(hub: Point2, r: seq<seq<Point2>>, spokes: seq<Spoke>, k: nat, i: nat)
    requires TouchFan(hub, r, spokes) && AllThere(r) && |spokes| == 4 && k < 4 && 0 < i < |Shares(r, spokes)[k]| - 1
    ensures PassesTo(Joined(Shares(r, spokes)), Start(Shares(r, spokes), k) + i)
  {
    hide TouchFan, Shares, Share, Joined, Start, Passage, Fan;
    var own := Shares(r, spokes);
    var from, lo, before := Start(own, k), Low(spokes[k]), i - 1;
    ShareOf(r, spokes, k);
    JoinedAt(own, k, i);
    JoinedAt(own, k, before);
    ShareRuns(hub, r, spokes, k);
    assert own[k][before].b == r[k][lo + i] == own[k][i].a;
    SharePassage(hub, r, spokes, k, lo + i, from + i - 1, from + i);
  }

  lemma SpokesPass(hub: Point2, r: seq<seq<Point2>>, spokes: seq<Spoke>, k: nat)
    requires TouchFan(hub, r, spokes) && AllThere(r) && |spokes| == 4 && 0 < k < 4 && spokes[k].open && Wide(Shares(r, spokes))
    ensures SpokePasses(Shares(r, spokes), k)
  {
    hide TouchFan, Shares, Share, Joined, Start, Passage, Fan;
    var own, b := Shares(r, spokes), k - 1;
    var n, last := |r[b]|, |own[b]| - 2;
    assert After(b) == k && Before(k) == b;
    ShareOf(r, spokes, k);
    ShareOf(r, spokes, b);
    StartOf(own, k);
    JoinedAt(own, k, 0);
    JoinedAt(own, b, last);
    ShareRuns(hub, r, spokes, k);
    ShareRuns(hub, r, spokes, b);
    OpenEnds(hub, r, spokes, b);
    assert own[b][last].b == r[b][n - 2] && r[k][1] == own[k][0].a;
    SharePassage(hub, r, spokes, b, n - 2, Start(own, k) - 2, Start(own, k));
  }

  lemma OpenEnds(hub: Point2, r: seq<seq<Point2>>, spokes: seq<Spoke>, k: nat)
    requires TouchFan(hub, r, spokes) && AllThere(r) && |spokes| == 4 && k < 4 && spokes[After(k)].open
    ensures |r[k]| >= 3 && |r[After(k)]| >= 3
    ensures r[k][|r[k]| - 2] == r[After(k)][1] && r[k][|r[k]| - 1] == r[After(k)][0]
  {
    TouchFacts(hub, r, spokes, k);
    TouchFacts(hub, r, spokes, After(k));
    hide TouchFan, Fan;
  }

  /** Every touch before the last spoke is guided; the last is if the second spoke is open. */
  lemma HubGuided(hub: Point2, r: seq<seq<Point2>>, spokes: seq<Spoke>, j: nat)
    requires TouchFan(hub, r, spokes) && AllThere(r) && |spokes| == 4 && j < 4 && spokes[j].touching
    requires Wide(Shares(r, spokes)) && (j == 3 ==> spokes[1].open)
    ensures var h := HubAt(Shares(r, spokes), spokes[j].outer, j);
      AtHub(Joined(Shares(r, spokes)), h) && Guided(Joined(Shares(r, spokes)), h)
  {
    hide TouchFan, Shares, Share, Joined, Start, Passage, Fan, Lead, AtHub, Leads, RimPasses, SpokePasses, GatedAt, Wide;
    var own, v := Shares(r, spokes), spokes[j].outer;
    forall k | 0 <= k < 4 ensures GatedAt(own, v, j, k) { SharesGated(hub, r, spokes, j, k); }
    HubThere(own, v, j);
    if j > 0 {
      PathThere(hub, r, spokes, j);
      StartOf(own, j);
    }
  }

  lemma SharesGated(hub: Point2, r: seq<seq<Point2>>, spokes: seq<Spoke>, j: nat, k: nat)
    requires TouchFan(hub, r, spokes) && AllThere(r) && |spokes| == 4 && j < 4 && k < 4 && spokes[j].touching
    ensures GatedAt(Shares(r, spokes), spokes[j].outer, j, k)
  {
    hide TouchFan, Share, Gated, AllThere;
    ShareGates(hub, r, spokes, j, k);
    ShareOf(r, spokes, k);
  }

  lemma PathThere(hub: Point2, r: seq<seq<Point2>>, spokes: seq<Spoke>, j: nat)
    requires TouchFan(hub, r, spokes) && AllThere(r) && |spokes| == 4 && 0 < j < 4 && spokes[j].touching
    requires Wide(Shares(r, spokes)) && (j == 3 ==> spokes[1].open)
    ensures var own := Shares(r, spokes); Start(own, j) >= 2 && Leads(Joined(own), Lead(own, j), Start(own, j) - 2)
  {
    hide TouchFan, Shares, Joined, Start, Lead, Leads, RimPasses, SpokePasses, Wide;
    var own := Shares(r, spokes);
    TouchNeighbours(hub, r, spokes, j);
    forall k | 0 <= k < j ensures RimPasses(own, k) { RimsPass(hub, r, spokes, k); }
    forall k | 0 < k < j ensures SpokePasses(own, k) { SpokesPass(hub, r, spokes, k); }
    LeadGoesOn(own, j);
  }

  lemma ShareOf(r: seq<seq<Point2>>, spokes: seq<Spoke>, k: nat)
    requires AllThere(r) && |spokes| == 4 && k < 4
    ensures Shares(r, spokes)[k] == Share(r, spokes, k)
  {
    hide Share;
  }

  lemma StartOf(own: seq<seq<Edge>>, j: nat)
    requires Wide(own) && 0 < j < 4
    ensures Start(own, j) == Start(own, Before(j)) + |own[Before(j)]|
  {
  }

  ghost function TouchHubs(r: seq<seq<Point2>>, spokes: seq<Spoke>, n: nat): seq<Hub>
    requires AllThere(r) && |spokes| == 4 && Wide(Shares(r, spokes)) && n <= 4
  {
    if n == 0 then []
    else
      TouchHubs(r, spokes, n - 1)
      + if spokes[n - 1].touching then [HubAt(Shares(r, spokes), spokes[n - 1].outer, n - 1)] else []
  }

  lemma {:induction false} TouchHubsAre(hub: Point2, r: seq<seq<Point2>>, spokes: seq<Spoke>, n: nat)
    requires TouchFan(hub, r, spokes) && AllThere(r) && |spokes| == 4 && Wide(Shares(r, spokes)) && n <= 4
    requires spokes[3].touching ==> spokes[1].open
    ensures forall h :: h in TouchHubs(r, spokes, n) ==>
      AtHub(Joined(Shares(r, spokes)), h) && Guided(Joined(Shares(r, spokes)), h)
    ensures forall j :: 0 <= j < n && spokes[j].touching ==> IsHub(TouchHubs(r, spokes, n), spokes[j].outer)
  {
    hide TouchFan, Shares, Joined, AtHub, Guided, Wide, HubAt;
    if n > 0 {
      var less := TouchHubs(r, spokes, n - 1);
      TouchHubsAre(hub, r, spokes, n - 1);
      if spokes[n - 1].touching {
        HubGuided(hub, r, spokes, n - 1);
        var h := HubAt(Shares(r, spokes), spokes[n - 1].outer, n - 1);
        assert h.at == spokes[n - 1].outer by { HubPlace(Shares(r, spokes), spokes[n - 1].outer, n - 1); }
        assert h in less + [h];
      }
      forall j | 0 <= j < n && spokes[j].touching ensures IsHub(TouchHubs(r, spokes, n), spokes[j].outer) {
        if j < n - 1 {
          var h :| h in less && h.at == spokes[j].outer;
          assert h in TouchHubs(r, spokes, n);
        }
      }
    }
  }

  lemma HubPlace(own: seq<seq<Edge>>, v: Point2, j: nat)
    requires Wide(own) && j < 4
    ensures HubAt(own, v, j).at == v
  {
    hide Start, Lead;
  }

  /** The boundary is a pinch, guided at every touch. */
  lemma TouchPinches(hub: Point2, r: seq<seq<Point2>>, spokes: seq<Spoke>) returns (hubs: seq<Hub>)
    requires TouchFan(hub, r, spokes) && |r| == |spokes| == 4 && (spokes[3].touching ==> spokes[1].open)
    ensures Pinch(Singles(AllEdges(r), AllEdges(r), true), hubs)
  {
    hide TouchFan, Shares, Singles, AllEdges, Joined, Guided, AtHub, LoopFree, IsHub, Wide, TouchHubs, Simple, Fan;
    var boundary := Singles(AllEdges(r), AllEdges(r), true);
    BoundaryIsShares(hub, r, spokes);
    SharesWide(hub, r, spokes);
    hubs := TouchHubs(r, spokes, 4);
    TouchHubsAre(hub, r, spokes, 4);
    TouchFacts(hub, r, spokes, 0);
    FanRings(hub, r, spokes);
    AllLoopFree(r);
    forall i, j | 0 <= i < j < |boundary| && boundary[i].b == boundary[j].b ensures IsHub(hubs, boundary[i].b) {
      RepeatTouches(hub, r, spokes, boundary, i, j);
    }
  }

  lemma RepeatTouches(hub: Point2, r: seq<seq<Point2>>, spokes: seq<Spoke>, boundary: seq<Edge>, i: nat, j: nat)
    requires TouchFan(hub, r, spokes) && |r| == |spokes| == 4 && boundary == Singles(AllEdges(r), AllEdges(r), true)
    requires i < j < |boundary| && boundary[i].b == boundary[j].b
    ensures exists q :: 0 <= q < 4 && TouchesAt(spokes[q], boundary[i].b)
  {
    var v := boundary[i].b;
    BoundaryAvoidsHub(hub, r, spokes, i);
    assert Fan(hub, r, spokes);
    hide TouchFan, Singles, AllEdges, Fan;
    if Untouched(spokes, v) {
      FanOnce(hub, r, spokes, v);
      assert false;
    }
  }

  lemma BoundaryAvoidsHub(hub: Point2, r: seq<seq<Point2>>, spokes: seq<Spoke>, i: nat)
    requires TouchFan(hub, r, spokes) && |r| == 4 && i < |Singles(AllEdges(r), AllEdges(r), true)|
    ensures Singles(AllEdges(r), AllEdges(r), true)[i].b != hub
  {
    var all := AllEdges(r);
    var e := Singles(all, all, true)[i];
    hide Singles, EdgesOf, Shaped;
    assert e in Singles(all, all, true);
    SinglesMember(all, all, e);
    var k :| 0 <= k < 4 && e in EdgesOf(r[k]);
    var x := EdgeEnds(r[k], e);
  }
}
