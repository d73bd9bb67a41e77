/** A fan without its hub, whose rings touch at outer points: each ring's share of the
    boundary is a path along the rim and one closing edge. */
module ContourTouch {
  import opened ContourGeometry
  import opened ContourTrace
  import opened ContourMerge
  import opened ContourMergeArea
  import opened ContourWheel
  import opened ContourFan
  import opened ContourPinchFan

  /** The ring lists its first spoke inward point first, and its second spoke inward point
      last; where it touches a neighbour, that point comes first or last. */
  ghost predicate Shaped(ring: seq<Point2>, left: Spoke, right: Spoke) {
    && Simple(ring) && (left.open || right.open)
    && (left.open ==> ring[0] == left.inner && ring[1] == left.outer)
    && (right.open ==> ring[|ring| - 1] == right.inner && ring[|ring| - 2] == right.outer)
    && (left.open && right.open ==> |ring| >= 4)
    && (left.touching ==> ring[0] == left.outer)
    && (right.touching ==> ring[|ring| - 1] == right.outer)
  }

  /** All rings are there; where two touch, the spokes on either side are open. */
  ghost predicate TouchFan(hub: Point2, r: seq<seq<Point2>>, spokes: seq<Spoke>) {
    && Fan(hub, r, spokes)
    && (forall k :: 0 <= k < 4 ==> hub !in r[k] && Shaped(r[k], spokes[k], spokes[After(k)]))
    && (forall k :: 0 <= k < 4 && spokes[After(k)].touching ==> spokes[k].open && spokes[After(After(k))].open)
  }

  function Low(left: Spoke): nat { if left.open then 1 else 0 }

  function High(n: nat, right: Spoke): int { if right.open then n - 2 else n - 1 }

  /** The ring's edges along the rim. */
  ghost function Rim(r: seq<seq<Point2>>, spokes: seq<Spoke>, k: nat): seq<Edge>
    requires |r| == |spokes| == 4 && k < 4
  {
    var e, lo, hi := EdgesOf(r[k]), Low(spokes[k]), High(|r[k]|, spokes[After(k)]);
    if 0 <= lo <= hi <= |e| then e[lo..hi] else []
  }

  ghost function Closing(r: seq<seq<Point2>>, k: nat): Edge
    requires |r| == 4 && k < 4 && r[k] != []
  {
    Edge(r[k][|r[k]| - 1], r[k][0])
  }

  lemma TouchFacts(hub: Point2, r: seq<seq<Point2>>, spokes: seq<Spoke>, k: nat)
    requires TouchFan(hub, r, spokes) && k < 4
    ensures |r| == |spokes| == 4 && Fan(hub, r, spokes) && Simple(r[k]) && |r[k]| >= 3 && r[k] != []
    ensures Shaped(r[k], spokes[k], spokes[After(k)]) && hub !in r[k]
  {
  }

  /** The rim runs from vertex to vertex of the ring. */
  lemma RimIs(ring: seq<Point2>, left: Spoke, right: Spoke)
    requires Shaped(ring, left, right)
    ensures |EdgesOf(ring)| == |ring| && 0 <= Low(left) < High(|ring|, right) <= |ring| - 1
    ensures forall i :: 0 <= i < |ring| ==> EdgesOf(ring)[i] == Edge(ring[i], ring[NextIndex(i, |ring|)])
  {
    hide RingEdges;
    RingEdgesAt(ring, 0);
    forall i | 0 <= i < |ring| ensures EdgesOf(ring)[i] == Edge(ring[i], ring[NextIndex(i, |ring|)]) {
      RingEdgesAt(ring, i);
    }
  }

  /** Which edges of a ring stay: all but those along its open spokes. */
  lemma StaysUnlessSpoke(hub: Point2, r: seq<seq<Point2>>, spokes: seq<Spoke>, k: nat, i: nat)
    requires TouchFan(hub, r, spokes) && k < 4 && |r| == 4 && i < |r[k]| == |EdgesOf(r[k])|
    ensures Count(AllEdges(r), Key(EdgesOf(r[k])[i])) == 1 <==>
      !(spokes[k].open && i == 0) && !(spokes[After(k)].open && i == |r[k]| - 2)
  {
    TouchFacts(hub, r, spokes, k);
    var ring, left, right := r[k], spokes[k], spokes[After(k)];
    var n := |ring|;
    RimIs(ring, left, right);
    hide TouchFan, Fan, RingEdges, AllEdges, Count, Key, MeetAt, SharesSpoke;
    var e := EdgesOf(ring)[i];
    assert e in EdgesOf(ring);
    if left.open && i == 0 {
      SpokeNotSingle(hub, r, spokes, Before(k), e);
    } else if right.open && i == n - 2 {
      SpokeNotSingle(hub, r, spokes, k, e);
    } else {
      ChordIsSingle(hub, r, spokes, k, e);
    }
  }

  lemma {:induction false} NoSingles(s: seq<Edge>, all: seq<Edge>)
    requires forall i :: 0 <= i < |s| ==> Count(all, Key(s[i])) != 1
    ensures Singles(s, all, true) == []
  {
    hide Count, Key;
    if s != [] { NoSingles(s[..|s| - 1], all); }
  }

  /** A stretch that goes, one that stays, one that goes, one that stays. */
  lemma FourStretches(p: seq<Edge>, q: seq<Edge>, x: seq<Edge>, y: seq<Edge>, all: seq<Edge>)
    requires Singles(p, all, true) == [] && Singles(q, all, true) == q
    requires Singles(x, all, true) == [] && Singles(y, all, true) == y
    ensures Singles(p + q + x + y, all, true) == q + y
  {
    hide Singles;
    SinglesConcat(p, q, all);
    SinglesConcat(p + q, x, all);
    SinglesConcat(p + q + x, y, all);
  }

  lemma StretchAndLast(e: seq<Edge>, lo: nat, hi: nat, all: seq<Edge>)
    requires lo < hi < |e|
    requires forall i :: 0 <= i < |e| ==> (Count(all, Key(e[i])) == 1 <==> lo <= i < hi || i == |e| - 1)
    ensures Singles(e, all, true) == e[lo..hi] + [e[|e| - 1]]
  {
    hide Count, Key, Singles;
    var n := |e| - 1;
    NoSingles(e[..lo], all);
    AllSingles(e[lo..hi], all);
    NoSingles(e[hi..n], all);
    AllSingles([e[n]], all);
    assert e == e[..lo] + e[lo..hi] + e[hi..n] + [e[n]];
    FourStretches(e[..lo], e[lo..hi], e[hi..n], [e[n]], all);
  }

  /** A ring's share of the boundary. */
  lemma OwnIs(hub: Point2, r: seq<seq<Point2>>, spokes: seq<Spoke>, k: nat)
    requires TouchFan(hub, r, spokes) && k < 4 && |r| == |spokes| == 4 && r[k] != []
    ensures Own(r, k) == Rim(r, spokes, k) + [Closing(r, k)]
  {
    TouchFacts(hub, r, spokes, k);
    var e, lo, hi := EdgesOf(r[k]), Low(spokes[k]), High(|r[k]|, spokes[After(k)]);
    RimIs(r[k], spokes[k], spokes[After(k)]);
    hide TouchFan, Fan, RingEdges, AllEdges, Count, Key, Shaped, EdgesOf, Singles, Simple;
    forall i | 0 <= i < |e| ensures Count(AllEdges(r), Key(e[i])) == 1 <==> lo <= i < hi || i == |e| - 1 {
      StaysUnlessSpoke(hub, r, spokes, k, i);
    }
    StretchAndLast(e, lo, hi, AllEdges(r));
  }

  // ---- where rings touch ----

  /** Touching spokes have open ones on either side. */
  lemma TouchNeighbours(hub: Point2, r: seq<seq<Point2>>, spokes: seq<Spoke>, j: nat)
    requires TouchFan(hub, r, spokes) && j < 4 && |spokes| == 4 && spokes[j].touching
    ensures spokes[Before(j)].open && spokes[After(j)].open && !spokes[j].open
  {
    assert After(Before(j)) == j;
  }

  /** Only the two rings beside the spoke have the point where they touch. */
  lemma TouchBeside(hub: Point2, r: seq<seq<Point2>>, spokes: seq<Spoke>, j: nat, k: nat)
    requires TouchFan(hub, r, spokes) && |r| == |spokes| == 4 && j < 4 && k < 4 && spokes[j].touching && spokes[j].outer in r[k]
    ensures k == j || k == Before(j)
  {
    TouchNeighbours(hub, r, spokes, j);
    var a, v := Before(j), spokes[j].outer;
    TouchFacts(hub, r, spokes, j);
    TouchFacts(hub, r, spokes, a);
    assert r[j][0] == v && r[a][|r[a]| - 1] == v;
    if k == After(j) {
      NoMeeting(hub, r, spokes, j, k, v);
    } else if k == After(After(j)) {
      assert After(k) == a;
      NoMeeting(hub, r, spokes, k, a, v);
    }
  }

  lemma NoMeeting(hub: Point2, r: seq<seq<Point2>>, spokes: seq<Spoke>, k: nat, l: nat, v: Point2)
    requires TouchFan(hub, r, spokes) && |r| == |spokes| == 4 && k < 4 && l == After(k) && spokes[l].open && v in r[k] && v in r[l]
    ensures v == spokes[l].inner || v == spokes[l].outer
  {
    TouchFacts(hub, r, spokes, k);
    hide Simple, SharesSpoke, Shaped;
    assert MeetAt(spokes, k, l, v);
    var i :| 0 <= i < 4 && Between(k, l, i) && (IsEnd(spokes[i], v) || TouchesAt(spokes[i], v));
    assert i == l;
  }

  /** A vertex of a ring other than its first and last touches nothing. */
  lemma InnerUntouched(hub: Point2, r: seq<seq<Point2>>, spokes: seq<Spoke>, k: nat, x: nat)
    requires TouchFan(hub, r, spokes) && |r| == |spokes| == 4 && k < 4 && 0 < x < |r[k]| - 1
    ensures Untouched(spokes, r[k][x]) && r[k][x] != hub
  {
    TouchFacts(hub, r, spokes, k);
    assert r[k][x] in r[k];
    forall j | 0 <= j < 4 ensures !TouchesAt(spokes[j], r[k][x]) {
      if TouchesAt(spokes[j], r[k][x]) {
        TouchBeside(hub, r, spokes, j, k);
        TouchFacts(hub, r, spokes, j);
        TouchFacts(hub, r, spokes, Before(j));
        assert false;
      }
    }
  }
}
