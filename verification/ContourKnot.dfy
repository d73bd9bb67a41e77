/** Two loops that meet in the wrong order: the tracer enters the second from the first and
    walks all of it backwards. */
module ContourKnot {
  import opened ContourGeometry
  import opened ContourTrace
  import opened ContourMergeArea
  import opened ContourMergeForward

  // ---- one step, and steps in a row ----

  lemma StepBackward(edges: seq<Edge>, before: seq<bool>, t: Trip, i: nat)
    requires Walking(edges, before, t) && i < |edges| && Ends(edges[i], Here(t)) > 0
    ensures |t.used| == |edges|
    ensures Backward(edges, Onward(edges, t, i))
         == Backward(edges, t) + if edges[i].a == Here(t) then 0.0 else Sweep(edges[i])
  {
    hide BackwardIn, WalkParity, Sweep;
    var u := Onward(edges, t, i);
    OnwardIsTrail(edges, before, t, i);
    BackwardExtends(edges, t, u, |t.trail|);
    LastStep(edges, u);
    assert u.ring[|t.trail|] == Here(t) && u.trail[|t.trail|] == i;
  }

  /** What a stretch of the walk does: it marks edges, moves on, and adds to what was walked
      backwards. */
  ghost predicate Moves(edges: seq<Edge>, before: seq<bool>, t: Trip, u: Trip, back: real) {
    && Walking(edges, before, t) && Walking(edges, before, u)
    && t.ring != [] && u.ring != [] && |t.used| == |u.used| == |edges| && WalkOn(edges, t) == WalkOn(edges, u)
    && u.ring[0] == t.ring[0] && Backward(edges, u) == Backward(edges, t) + back
  }

  lemma MovesThen(edges: seq<Edge>, before: seq<bool>, t: Trip, u: Trip, w: Trip, x: real, y: real)
    requires Moves(edges, before, t, u, x) && Moves(edges, before, u, w, y)
    ensures Moves(edges, before, t, w, x + y)
  {
    hide WalkOn, Walking, Backward;
  }

  lemma MovesNot(edges: seq<Edge>, before: seq<bool>, t: Trip)
    requires Walking(edges, before, t)
    ensures Moves(edges, before, t, t, 0.0)
  {
    hide WalkOn, Backward, WalkParity;
  }

  ghost predicate Touches(e: Edge, v: Point2) { e.a == v || e.b == v }

  /** Edge i is the lowest unused one here. */
  lemma StepTo(edges: seq<Edge>, before: seq<bool>, t: Trip, i: nat)
    requires Walking(edges, before, t) && |t.used| == |edges| && Here(t) != t.ring[0] && i < |edges| && !t.used[i]
    requires Touches(edges[i], Here(t)) && forall j :: 0 <= j < i && !t.used[j] ==> !Touches(edges[j], Here(t))
    ensures Moves(edges, before, t, Onward(edges, t, i), if edges[i].a == Here(t) then 0.0 else Sweep(edges[i]))
  {
    FirstFreeIs(edges, t.used, Here(t), i);
    MarkUnusedCount(t.used, i);
    StepBackward(edges, before, t, i);
    WalkingSteps(edges, before, t, i);
    hide Walking, Backward, Sweep, FirstFree, UnusedCount;
  }

  ghost predicate ChainIn(edges: seq<Edge>, lo: nat, hi: nat) {
    hi <= |edges| && forall x, y :: lo <= x && y == x + 1 < hi ==> edges[x].b == edges[y].a
  }

  ghost predicate Marks(t: Trip, u: Trip, lo: nat, hi: nat) {
    |t.used| == |u.used| && forall x :: 0 <= x < |t.used| ==> (u.used[x] <==> t.used[x] || lo <= x < hi)
  }

  lemma MarksOne(edges: seq<Edge>, t: Trip, i: nat)
    requires t.ring != [] && i < |edges| == |t.used|
    ensures Marks(t, Onward(edges, t, i), i, i + 1)
  {
  }

  /** Up along a chain, when all edges below it are used. */
  lemma {:induction false} WalkUp(edges: seq<Edge>, before: seq<bool>, t: Trip, lo: nat, hi: nat) returns (u: Trip)
    requires Walking(edges, before, t) && t.ring != [] && |t.used| == |edges| && lo <= hi && ChainIn(edges, lo, hi)
    requires lo < hi ==> Here(t) == edges[lo].a
    requires forall x :: 0 <= x < lo ==> t.used[x]
    requires forall x :: lo <= x < hi ==> !t.used[x] && edges[x].a != t.ring[0]
    ensures u.ring != [] && Moves(edges, before, t, u, 0.0) && Marks(t, u, lo, hi)
    ensures Here(u) == if lo < hi then edges[hi - 1].b else Here(t)
    decreases hi - lo
  {
    hide Walking, WalkOn, Backward, Sweep, Consumed;
    if lo == hi {
      u := t;
      MovesNot(edges, before, t);
    } else {
      StepTo(edges, before, t, lo);
      MarksOne(edges, t, lo);
      var n := Onward(edges, t, lo);
      assert Here(n) == edges[lo].b;
      var next := lo + 1;
      assert next < hi ==> edges[lo].b == edges[next].a;
      u := WalkUp(edges, before, n, lo + 1, hi);
      MovesThen(edges, before, t, n, u, 0.0, 0.0);
    }
  }

  /** No unused edge below x meets its end. */
  ghost predicate ClearBelow(edges: seq<Edge>, used: seq<bool>, x: nat)
    requires x < |edges| == |used|
  {
    forall j :: 0 <= j < x && !used[j] ==> !Touches(edges[j], edges[x].b)
  }

  lemma StaysClear(edges: seq<Edge>, used: seq<bool>, x: nat, i: nat)
    requires x < |edges| == |used| && i < |used| && ClearBelow(edges, used, x)
    ensures ClearBelow(edges, used[i := true], x)
  {
  }

  lemma StepDown(edges: seq<Edge>, before: seq<bool>, t: Trip, i: nat)
    requires Walking(edges, before, t) && t.ring != [] && |t.used| == |edges| && i < |edges| && LoopFree(edges)
    requires Here(t) == edges[i].b != t.ring[0] && !t.used[i] && ClearBelow(edges, t.used, i)
    ensures var n := Onward(edges, t, i);
      && Moves(edges, before, t, n, Sweep(edges[i])) && n.used == t.used[i := true] && Here(n) == edges[i].a
      && Walking(edges, before, n) && n.ring != [] && n.ring[0] == t.ring[0] && Marks(t, n, i, i + 1)
  {
    assert edges[i].a != edges[i].b;
    hide Walking, WalkOn, Backward, Sweep, Consumed, LoopFree;
    StepTo(edges, before, t, i);
  }

  /** Down along a chain, when no unused edge below meets it. */
  lemma {:induction false} WalkDown(edges: seq<Edge>, before: seq<bool>, t: Trip, lo: nat, hi: nat) returns (u: Trip)
    requires Walking(edges, before, t) && t.ring != [] && |t.used| == |edges| && lo <= hi && ChainIn(edges, lo, hi) && LoopFree(edges)
    requires lo < hi ==> Here(t) == edges[hi - 1].b
    requires forall x :: lo <= x < hi ==> !t.used[x] && edges[x].b != t.ring[0]
    requires forall x :: lo <= x < hi ==> ClearBelow(edges, t.used, x)
    ensures u.ring != [] && Moves(edges, before, t, u, Total(edges[lo..hi], Sweep)) && Marks(t, u, lo, hi)
    ensures Here(u) == if lo < hi then edges[lo].a else Here(t)
    decreases hi - lo
  {
    hide Walking, WalkOn, Backward, Sweep, Consumed, Moves, ClearBelow, LoopFree, Onward;
    if lo == hi {
      u := t;
      MovesNot(edges, before, t);
      assert edges[lo..hi] == [];
    } else {
      var i := hi - 1;
      StepDown(edges, before, t, i);
      var n := Onward(edges, t, i);
      forall x | lo <= x < i ensures ClearBelow(edges, n.used, x) { StaysClear(edges, t.used, x, i); }
      var prev := hi - 2;
      assert lo < i ==> edges[prev].b == edges[i].a;
      u := WalkDown(edges, before, n, lo, i);
      MovesThen(edges, before, t, n, u, Sweep(edges[i]), Total(edges[lo..i], Sweep));
      assert edges[lo..hi] == edges[lo..i] + [edges[i]];
      AppendCounts(edges[lo..i], edges[i], Sweep);
    }
  }

  lemma MovesFacts(edges: seq<Edge>, before: seq<bool>, t: Trip, u: Trip, back: real)
    requires Moves(edges, before, t, u, back)
    ensures Walking(edges, before, u) && |u.used| == |edges| && u.ring[0] == t.ring[0] && WalkOn(edges, t) == WalkOn(edges, u)
    ensures Backward(edges, u) == Backward(edges, t) + back
  {
  }

  // ---- the knot ----

  /** Four stretches, with edges s2 - 1, s3 - 1 and the last between them. The first
      stretch, the last edge and the fourth stretch make one loop; the second, the third and
      the two edges after them the other. They meet at the fourth stretch's start; and
      perhaps where the second begins. */
  ghost predicate Knot(edges: seq<Edge>, s1: nat, s2: nat, s3: nat) {
    && LoopFree(edges) && 0 < s1 && s1 + 1 < s2 && s2 + 1 < s3 && s3 + 1 < |edges|
    && ChainIn(edges, 0, s1) && ChainIn(edges, s1, s2 - 1) && ChainIn(edges, s2, s3 - 1) && ChainIn(edges, s3, |edges| - 1)
    && edges[s1 - 1].b == edges[|edges| - 1].a && edges[|edges| - 2].b == edges[0].a
    && edges[s2 - 2].b == edges[s2].a && edges[s3 - 1].b == edges[s2 - 1].a && edges[s2 - 1].b == edges[s1].a
    && edges[|edges| - 1].b == edges[s3].a == edges[s3 - 1].a == edges[s3 - 2].b
  }

  /** Only the listed edges meet at the points in between. */
  ghost predicate Apart(edges: seq<Edge>, s1: nat, s2: nat, s3: nat)
    requires Knot(edges, s1, s2, s3)
  {
    && OnceThrough(edges, edges[0].a) && OnceThrough(edges, edges[|edges| - 1].a)
    && (forall x :: s1 <= x < s3 - 2 && x != s2 - 1 ==> OnceThrough(edges, edges[x].b))
    && (forall x :: 0 <= x < |edges| && edges[x].b == edges[s3].a ==> x == s3 - 2 || x == |edges| - 1)
    && (forall x :: 0 <= x < |edges| && edges[x].a == edges[s3].a ==> x == s3 - 1 || x == s3)
  }

  lemma OnlyAt(edges: seq<Edge>, v: Point2, i: nat, j: nat, x: nat)
    requires OnceThrough(edges, v) && i < |edges| && j < |edges| && x < |edges| && edges[i].b == v && edges[j].a == v
    ensures Touches(edges[x], v) ==> x == i || x == j
  {
  }

  /** The walk is back at its start only at the end. */
  lemma StartOnly(edges: seq<Edge>, s1: nat, s2: nat, s3: nat, x: nat)
    requires Knot(edges, s1, s2, s3) && Apart(edges, s1, s2, s3) && x < |edges|
    ensures x != 0 ==> edges[x].a != edges[0].a
    ensures x != |edges| - 2 ==> edges[x].b != edges[0].a
  {
    OnlyAt(edges, edges[0].a, |edges| - 2, 0, x);
    assert edges[x].a != edges[x].b && edges[0].a != edges[0].b && edges[|edges| - 2].a != edges[|edges| - 2].b;
  }

  /** Along the second and third stretch nothing lower comes between. */
  lemma NothingBelow(edges: seq<Edge>, s1: nat, s2: nat, s3: nat, x: nat, j: nat)
    requires Knot(edges, s1, s2, s3) && Apart(edges, s1, s2, s3) && s1 <= x < s3 - 1 && x != s2 - 1 && s1 <= j < x
    ensures !Touches(edges[j], edges[x].b)
  {
    hide OnceThrough, LoopFree;
    var v := edges[x].b;
    if x == s3 - 2 {
      assert Touches(edges[j], edges[s3].a) ==> j == s3 - 2 || j == s3 - 1 || j == s3 || j == |edges| - 1;
    } else if x == s2 - 2 {
      OnlyAt(edges, v, x, s2, j);
    } else {
      var next := x + 1;
      assert edges[x].b == edges[next].a;
      OnlyAt(edges, v, x, next, j);
    }
  }

  /** The state of the walk: where it is, what is used, what it walked backwards. */
  ghost predicate State(edges: seq<Edge>, d: Trip, t: Trip, back: real) {
    && Moves(edges, Unused(|edges|), d, t, back) && Walking(edges, Unused(|edges|), t) && t.ring != []
    && |t.used| == |edges| && edges != [] && t.ring[0] == edges[0].a
  }

  lemma StateThen(edges: seq<Edge>, d: Trip, t: Trip, u: Trip, x: real, y: real)
    requires State(edges, d, t, x) && Moves(edges, Unused(|edges|), t, u, y)
    ensures State(edges, d, u, x + y)
  {
    MovesThen(edges, Unused(|edges|), d, t, u, x, y);
    MovesFacts(edges, Unused(|edges|), t, u, y);
    hide Walking, WalkOn, Backward;
  }

  lemma FirstStretch(edges: seq<Edge>, s1: nat, s2: nat, s3: nat) returns (d: Trip, t: Trip)
    requires Knot(edges, s1, s2, s3) && Apart(edges, s1, s2, s3)
    ensures d == Depart(edges, Unused(|edges|), 0) && Backward(edges, d) == 0.0
    ensures State(edges, d, t, 0.0) && Here(t) == edges[s1 - 1].b
    ensures forall x :: 0 <= x < |edges| ==> (t.used[x] <==> x < s1)
  {
    hide Walking, Backward, WalkOn, Apart, LoopFree, Moves, Knot, ChainIn, Consumed;
    var before := Unused(|edges|);
    KnotSizes(edges, s1, s2, s3);
    d := Depart(edges, before, 0);
    assert Walking(edges, before, d) by { WalkingStarts(edges, before, 0); }
    assert Backward(edges, d) == 0.0 by { StartsForward(edges); }
    forall x | 1 <= x < s1 ensures edges[x].a != edges[0].a { StartOnly(edges, s1, s2, s3, x); }
    assert ChainIn(edges, 1, s1) && (1 < s1 ==> edges[0].b == edges[1].a) by { ChainTail(edges, s1); }
    t := WalkUp(edges, before, d, 1, s1);
    MovesFacts(edges, before, d, t, 0.0);
  }

  lemma KnotSizes(edges: seq<Edge>, s1: nat, s2: nat, s3: nat)
    requires Knot(edges, s1, s2, s3)
    ensures 0 < s1 && s1 + 1 < s2 && s2 + 1 < s3 && s3 + 1 < |edges| && LoopFree(edges)
    ensures ChainIn(edges, 0, s1) && ChainIn(edges, s1, s2 - 1) && ChainIn(edges, s2, s3 - 1) && ChainIn(edges, s3, |edges| - 1)
  {
  }

  lemma StartsForward(edges: seq<Edge>)
    requires edges != []
    ensures Backward(edges, Depart(edges, Unused(|edges|), 0)) == 0.0
  {
    ForwardStarts(edges, Unused(|edges|), 0);
    hide Backward;
  }

  lemma ChainTail(edges: seq<Edge>, s1: nat)
    requires ChainIn(edges, 0, s1) && 0 < s1
    ensures ChainIn(edges, 1, s1) && (1 < s1 ==> edges[0].b == edges[1].a)
  {
    var one := 1;
    assert 1 < s1 ==> edges[0].b == edges[one].a;
  }

  /** To the meeting point by the last edge. */
  lemma EnterSecond(edges: seq<Edge>, s1: nat, s2: nat, s3: nat, d: Trip, t: Trip) returns (u: Trip)
    requires Knot(edges, s1, s2, s3) && Apart(edges, s1, s2, s3) && State(edges, d, t, 0.0)
    requires Here(t) == edges[s1 - 1].b && forall x :: 0 <= x < |edges| ==> (t.used[x] <==> x < s1)
    ensures State(edges, d, u, 0.0) && Here(u) == edges[s3].a
    ensures forall x :: 0 <= x < |edges| ==> (u.used[x] <==> x < s1 || x == |edges| - 1)
  {
    hide Knot, Apart, Moves, Walking, Touches, LoopFree, ChainIn, OnceThrough;
    KnotJoins(edges, s1, s2, s3);
    var n := |edges| - 1;
    StartOnly(edges, s1, s2, s3, n);
    assert OnceThrough(edges, Here(t)) by { ApartAtEntry(edges, s1, s2, s3); }
    forall j | 0 <= j < n && !t.used[j] ensures !Touches(edges[j], Here(t)) { OnlyAt(edges, Here(t), s1 - 1, n, j); }
    TouchesStart(edges[n]);
    StepTo(edges, Unused(|edges|), t, n);
    u := Onward(edges, t, n);
    StateThen(edges, d, t, u, 0.0, 0.0);
  }

  lemma ApartAtEntry(edges: seq<Edge>, s1: nat, s2: nat, s3: nat)
    requires Knot(edges, s1, s2, s3) && Apart(edges, s1, s2, s3)
    ensures OnceThrough(edges, edges[s1 - 1].b)
  {
    hide OnceThrough, LoopFree, ChainIn;
  }

  lemma TouchesStart(e: Edge)
    ensures Touches(e, e.a) && Touches(e, e.b)
  {
  }

  /** Back along a stretch of the second loop. */
  lemma DownOne(edges: seq<Edge>, s1: nat, s2: nat, s3: nat, d: Trip, t: Trip, x: real, lo: nat, hi: nat) returns (u: Trip)
    requires Knot(edges, s1, s2, s3) && Apart(edges, s1, s2, s3) && State(edges, d, t, x)
    requires (lo == s1 && hi == s2 - 1) || (lo == s2 && hi == s3 - 1)
    requires Here(t) == edges[hi - 1].b && (forall y :: 0 <= y < s1 ==> t.used[y]) && forall y :: lo <= y < hi ==> !t.used[y]
    ensures State(edges, d, u, x + Total(edges[lo..hi], Sweep)) && Marks(t, u, lo, hi) && Here(u) == edges[lo].a
  {
    hide Knot, Apart, LoopFree, ChainIn, Moves, Walking, Total, Sweep, ClearBelow, OnceThrough;
    KnotSizes(edges, s1, s2, s3);
    forall y | lo <= y < hi ensures ClearBelow(edges, t.used, y) { ClearAt(edges, s1, s2, s3, t.used, y); }
    forall y | lo <= y < hi ensures edges[y].b != edges[0].a { StartOnly(edges, s1, s2, s3, y); }
    u := WalkDown(edges, Unused(|edges|), t, lo, hi);
    StateThen(edges, d, t, u, x, Total(edges[lo..hi], Sweep));
  }

  lemma ClearAt(edges: seq<Edge>, s1: nat, s2: nat, s3: nat, used: seq<bool>, x: nat)
    requires Knot(edges, s1, s2, s3) && Apart(edges, s1, s2, s3) && |used| == |edges| && forall j :: 0 <= j < s1 ==> used[j]
    requires s1 <= x < s3 - 1 && x != s2 - 1
    ensures ClearBelow(edges, used, x)
  {
    KnotSizes(edges, s1, s2, s3);
    hide Knot, Apart, Touches, LoopFree, ChainIn;
    forall j | 0 <= j < x && !used[j] ensures !Touches(edges[j], edges[x].b) { NothingBelow(edges, s1, s2, s3, x, j); }
  }

  /** Back along one of the two edges between. */
  lemma BackOne(edges: seq<Edge>, s1: nat, s2: nat, s3: nat, d: Trip, t: Trip, x: real, i: nat) returns (u: Trip)
    requires Knot(edges, s1, s2, s3) && Apart(edges, s1, s2, s3) && State(edges, d, t, x) && (i == s2 - 1 || i == s3 - 1)
    requires Here(t) == edges[i].b && !t.used[i] && forall y :: 0 <= y < i ==> t.used[y]
    ensures State(edges, d, u, x + Sweep(edges[i])) && Marks(t, u, i, i + 1) && Here(u) == edges[i].a
  {
    hide Knot, Apart, LoopFree, ChainIn, Moves, Walking, Sweep, OnceThrough, Onward;
    KnotSizes(edges, s1, s2, s3);
    StartOnly(edges, s1, s2, s3, i);
    StepDown(edges, Unused(|edges|), t, i);
    u := Onward(edges, t, i);
    StateThen(edges, d, t, u, x, Sweep(edges[i]));
  }

  /** Home along the fourth stretch. */
  lemma GoHome(edges: seq<Edge>, s1: nat, s2: nat, s3: nat, d: Trip, t: Trip, x: real) returns (u: Trip)
    requires Knot(edges, s1, s2, s3) && Apart(edges, s1, s2, s3) && State(edges, d, t, x) && Here(t) == edges[s3].a
    requires forall y :: 0 <= y < |edges| ==> (t.used[y] <==> y < s3 || y == |edges| - 1)
    ensures State(edges, d, u, x) && Here(u) == edges[0].a && forall y :: 0 <= y < |edges| ==> u.used[y]
  {
    hide Knot, Apart, LoopFree, ChainIn, Moves, Walking, OnceThrough;
    KnotSizes(edges, s1, s2, s3);
    KnotJoins(edges, s1, s2, s3);
    forall y | s3 <= y < |edges| - 1 ensures edges[y].a != edges[0].a { StartOnly(edges, s1, s2, s3, y); }
    u := WalkUp(edges, Unused(|edges|), t, s3, |edges| - 1);
    StateThen(edges, d, t, u, x, 0.0);
  }

  /** What the walk goes along backwards: the second loop. */
  ghost function Reversed(edges: seq<Edge>, s1: nat, s2: nat, s3: nat): real
    requires Knot(edges, s1, s2, s3)
  {
    Total(edges[s2..s3 - 1], Sweep) + Total(edges[s1..s2 - 1], Sweep) + Sweep(edges[s2 - 1]) + Sweep(edges[s3 - 1])
  }

  /** One walk takes both loops, the second backwards. */
  lemma KnotWalk(edges: seq<Edge>, s1: nat, s2: nat, s3: nat)
    requires Knot(edges, s1, s2, s3) && Apart(edges, s1, s2, s3)
    ensures |Trace(edges)| == 1 && BackwardSum(edges, Trace(edges)) == Reversed(edges, s1, s2, s3)
  {
    hide Moves, Walking, Apart, WalkOn, Backward, Sweep, Total, Depart, Knot, LoopFree, ChainIn;
    KnotSizes(edges, s1, s2, s3);
    var d, t := FirstStretch(edges, s1, s2, s3);
    var u := EnterSecond(edges, s1, s2, s3, d, t);
    KnotJoins(edges, s1, s2, s3);
    var x, y := Total(edges[s2..s3 - 1], Sweep), Total(edges[s1..s2 - 1], Sweep);
    var v1 := DownOne(edges, s1, s2, s3, d, u, 0.0, s2, s3 - 1);
    var v2 := DownOne(edges, s1, s2, s3, d, v1, 0.0 + x, s1, s2 - 1);
    var v3 := BackOne(edges, s1, s2, s3, d, v2, 0.0 + x + y, s2 - 1);
    var v4 := BackOne(edges, s1, s2, s3, d, v3, 0.0 + x + y + Sweep(edges[s2 - 1]), s3 - 1);
    var w := GoHome(edges, s1, s2, s3, d, v4, 0.0 + x + y + Sweep(edges[s2 - 1]) + Sweep(edges[s3 - 1]));
    MovesFacts(edges, Unused(|edges|), d, w, 0.0 + x + y + Sweep(edges[s2 - 1]) + Sweep(edges[s3 - 1]));
    SoleTrip(edges, d, w);
  }

  lemma KnotJoins(edges: seq<Edge>, s1: nat, s2: nat, s3: nat)
    requires Knot(edges, s1, s2, s3)
    ensures 0 < s1 && s1 + 1 < s2 && s2 + 1 < s3 && s3 + 1 < |edges|
    ensures edges[s3].a == edges[s3 - 2].b && edges[s2].a == edges[s2 - 2].b && edges[s1].a == edges[s2 - 1].b
    ensures edges[s2 - 1].a == edges[s3 - 1].b && edges[s3 - 1].a == edges[s3].a
    ensures edges[|edges| - 2].b == edges[0].a && edges[s1 - 1].b == edges[|edges| - 1].a && edges[|edges| - 1].b == edges[s3].a
  {
    hide LoopFree, ChainIn;
  }

  lemma {:induction false} AllTaken(edges: seq<Edge>, used: seq<bool>, first: nat)
    requires first <= |edges| == |used| && forall i :: first <= i < |used| ==> used[i]
    ensures TraceFrom(edges, used, first) == []
    decreases |edges| - first
  {
    if first < |edges| { AllTaken(edges, used, first + 1); }
  }

  lemma {:induction false} SoleTrip(edges: seq<Edge>, d: Trip, w: Trip)
    requires edges != [] && d == Depart(edges, Unused(|edges|), 0) && w.ring != [] && |w.used| == |edges|
    requires WalkOn(edges, d) == WalkOn(edges, w) && Here(w) == w.ring[0] && forall x :: 0 <= x < |edges| ==> w.used[x]
    ensures Trace(edges) == [w] && BackwardSum(edges, Trace(edges)) == Backward(edges, w)
  {
    assert WalkOn(edges, w) == w;
    hide WalkOn, Backward;
    AllTaken(edges, w.used, 1);
    assert Trace(edges) == [w] + [];
    assert [w][1..] == [];
  }
}
