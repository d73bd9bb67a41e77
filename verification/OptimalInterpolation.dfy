/** The local optimal-interpolation solve: factor the observation covariance with
    diagonal jitter, solve for the innovations and for the target covariances,
    and read off the increment and its confidence. */
module OptimalInterpolation {
  import opened Basics
  import opened Matrices
  import opened Cholesky
  import opened CholeskySolve

  const ATTEMPTS := 6

  function PowerOfTen(k: nat): (p: real)
    ensures p > 0.0
  {
    if k == 0 then 1.0 else 10.0 * PowerOfTen(k - 1)
  }

  /** The jitter grows tenfold from attempt to attempt, up to a hundred thousand times
      the base. */
  lemma JitterSteps(a: Mat, baseJitter: real, attempt: nat)
    requires attempt < ATTEMPTS
    ensures var factor := [1.0, 10.0, 100.0, 1000.0, 10000.0, 100000.0][attempt];
      forall i, j :: Jittered(a, baseJitter, attempt)(i, j) == if i == j then a(i, j) + baseJitter * factor else a(i, j)
    ensures ATTEMPTS == 6
  {
    assert PowerOfTen(1) == 10.0 && PowerOfTen(2) == 100.0 && PowerOfTen(3) == 1000.0;
    assert PowerOfTen(4) == 10000.0 && PowerOfTen(5) == 100000.0;
  }

  /** The covariance with the diagonal jitter of one attempt. */
  ghost function Jittered(a: Mat, baseJitter: real, attempt: nat): Mat {
    Shifted(a, baseJitter * PowerOfTen(attempt))
  }

  /** attempt is the first one whose jittered matrix has a factor. */
  ghost predicate FirstFactorable(a: Mat, n: nat, baseJitter: real, attempt: nat) {
    && attempt < ATTEMPTS
    && Factorable(Jittered(a, baseJitter, attempt), n)
    && forall k :: 0 <= k < attempt ==> !Factorable(Jittered(a, baseJitter, k), n)
  }

  ghost predicate NoAttemptFactors(a: Mat, n: nat, baseJitter: real) {
    forall k :: 0 <= k < ATTEMPTS ==> !Factorable(Jittered(a, baseJitter, k), n)
  }

  lemma FactorDependsOnEntries(l: Mat, a: Mat, b: Mat, n: nat)
    requires forall i, j :: 0 <= i < n && 0 <= j < n ==> a(i, j) == b(i, j)
    ensures IsFactor(l, a, n) <==> IsFactor(l, b, n)
  {
  }

  lemma FactorableDependsOnEntries(a: Mat, b: Mat, n: nat)
    requires forall i, j :: 0 <= i < n && 0 <= j < n ==> a(i, j) == b(i, j)
    ensures Factorable(a, n) <==> Factorable(b, n)
  {
    if Factorable(a, n) {
      var l: Mat :| IsFactor(l, a, n);
      FactorDependsOnEntries(l, a, b, n);
    }
    if Factorable(b, n) {
      var l: Mat :| IsFactor(l, b, n);
      FactorDependsOnEntries(l, a, b, n);
    }
  }

  /** A fresh copy of the matrix with c added along its diagonal. */
  method AddJitter(matrix: seq<real>, n: nat, c: real) returns (m: array<real>)
    requires |matrix| == n * n
    ensures fresh(m) && m.Length == n * n
    ensures forall i, j :: 0 <= i < n && 0 <= j < n ==>
              Grid(m[..], n)(i, j) == Shifted(Grid(matrix, n), c)(i, j)
  {
    m := new real[n * n](i requires 0 <= i < |matrix| => matrix[i]);
    assert m[..] == matrix;
    for idx := 0 to n
      invariant forall i, j :: 0 <= i < n && 0 <= j < n ==>
        At(m[..], n, i, j) == At(matrix, n, i, j) + if i == j && i < idx then c else 0.0
    {
      IndexInRange(n, idx, idx);
      ghost var before := m[..];
      var p := idx * n + idx;
      m[p] := m[p] + c;
      assert m[..] == before[p := before[p] + c];
      forall i, j | 0 <= i < n && 0 <= j < n
        ensures At(m[..], n, i, j) == if i == j == idx then before[p] + c else At(before, n, i, j)
      {
        AtUpdate(before, n, idx, idx, p, before[p] + c, i, j);
      }
      assert before[p] == At(before, n, idx, idx);
    }
  }

  /** Factor a, stored in matrix, with the least jitter that works. */
  method FactorWithJitter(matrix: seq<real>, ghost a: Mat, n: nat, baseJitter: real, sqrt: real -> real)
    returns (ok: bool, factor: seq<real>, ghost attempt: nat)
    requires IsSqrt(sqrt)
    requires forall i, j :: 0 <= i < n && 0 <= j < n ==> At(matrix, n, i, j) == a(i, j)
    ensures ok <==> |matrix| == n * n && !NoAttemptFactors(a, n, baseJitter)
    ensures ok ==> FirstFactorable(a, n, baseJitter, attempt)
    ensures ok ==> |factor| == n * n && IsFactor(Grid(factor, n), Jittered(a, baseJitter, attempt), n)
  {
    factor, attempt := [], 0;
    if |matrix| != n * n {
      return false, factor, attempt;
    }
    for k := 0 to ATTEMPTS
      invariant forall i :: 0 <= i < k ==> !Factorable(Jittered(a, baseJitter, i), n)
    {
      var m := AddJitter(matrix, n, baseJitter * PowerOfTen(k));
      ghost var shifted := Grid(m[..], n);
      FactorableDependsOnEntries(shifted, Jittered(a, baseJitter, k), n);
      var done := DecomposeLower(m, n, sqrt);
      if done {
        FactorDependsOnEntries(Grid(m[..], n), shifted, Jittered(a, baseJitter, k), n);
        return true, m[..], k;
      }
    }
    return false, factor, attempt;
  }

  // ---- one grid cell ----

  /** One retained observation: its innovation, its error, and its covariance
      with the target cell. */
  datatype LocalObservation =
    LocalObservation(increment: real, observationError: real, targetCovariance: real)

  /** Off-diagonal covariance of two retained observations, row > col; None when
      the kernel is not finite. */
  type Kernel = (int, int) -> Option<real>

  function Max(x: real, y: real): real { if x < y then y else x }

  function BaseJitter(variance: real, jitterFraction: real): (b: real)
    ensures b >= variance * jitterFraction && b >= 0.000000000001
    ensures b == variance * jitterFraction || b == 0.000000000001
  {
    Max(variance * jitterFraction, 0.000000000001)
  }

  function Clamp(x: real, lo: real, hi: real): real {
    if x < lo then lo else if x > hi then hi else x
  }

  /** raw limited to a multiple of the largest innovation m, unless all vanish. */
  function Limited(raw: real, m: real, f: real): real {
    if m > 0.0 then Clamp(raw, -(m * f), m * f) else raw
  }

  /** x is raw brought into the given limit on both sides. */
  ghost predicate WithinLimit(x: real, raw: real, limit: real) {
    && -limit <= x <= limit
    && (-limit <= raw <= limit ==> x == raw)
    && (raw > limit ==> x == limit)
    && (raw < -limit ==> x == -limit)
  }

  lemma LimitedExact(raw: real, m: real, f: real)
    requires m >= 0.0 && f >= 0.0
    ensures m > 0.0 ==> WithinLimit(Limited(raw, m, f), raw, m * f)
    ensures m == 0.0 ==> Limited(raw, m, f) == raw
  {
    assert m * f >= 0.0;
  }

  /** c is the share of the variance that x explains, at most one. */
  ghost predicate CappedShare(c: real, x: real, variance: real) {
    if x > variance then c == 1.0 else c * variance == x
  }

  ghost function CovarianceAt(local: seq<LocalObservation>, kernel: Kernel, variance: real, i: int, j: int): real {
    if i == j then
      if 0 <= i < |local| then variance + local[i].observationError * local[i].observationError else 0.0
    else
      var c := if i > j then kernel(i, j) else kernel(j, i);
      if c.Some? then c.value else 0.0
  }

  /** The observation covariance; symmetric by construction. */
  ghost function Covariance(local: seq<LocalObservation>, kernel: Kernel, variance: real): Mat {
    (i, j) => CovarianceAt(local, kernel, variance, i, j)
  }

  ghost predicate KernelFinite(n: nat, kernel: Kernel) {
    forall row, col :: 0 <= col < row < n ==> kernel(row, col).Some?
  }

  /** Entry (i, j) belongs to the part of the matrix filled before (row, col). */
  ghost predicate Filled(i: int, j: int, row: int, col: int) {
    var r, c := if i > j then i else j, if i > j then j else i;
    r < row || (r == row && c < col)
  }

  method WriteBoth(m: array<real>, n: nat, row: nat, col: nat, x: real)
    requires m.Length == n * n && col <= row < n
    modifies m
    ensures forall i, j :: 0 <= i < n && 0 <= j < n ==>
              At(m[..], n, i, j) ==
              (if (i == row && j == col) || (i == col && j == row) then x else At(old(m[..]), n, i, j))
  {
    IndexInRange(n, row, col);
    IndexInRange(n, col, row);
    ghost var s0 := m[..];
    m[row * n + col] := x;
    ghost var s1 := m[..];
    assert s1 == s0[row * n + col := x];
    m[col * n + row] := x;
    assert m[..] == s1[col * n + row := x];
    forall i, j | 0 <= i < n && 0 <= j < n
      ensures At(m[..], n, i, j)
           == if (i == row && j == col) || (i == col && j == row) then x else At(s0, n, i, j)
    {
      AtUpdate(s0, n, row, col, row * n + col, x, i, j);
      AtUpdate(s1, n, col, row, col * n + row, x, i, j);
    }
  }

  /** Fill the covariance matrix row by row, mirroring each entry. */
  method FillCovariance(local: seq<LocalObservation>, kernel: Kernel, variance: real)
    returns (ok: bool, matrix: seq<real>)
    ensures ok <==> KernelFinite(|local|, kernel)
    ensures ok ==> |matrix| == |local| * |local|
    ensures ok ==> forall i, j :: 0 <= i < |local| && 0 <= j < |local| ==>
              At(matrix, |local|, i, j) == CovarianceAt(local, kernel, variance, i, j)
  {
    var n := |local|;
    var m := new real[n * n](_ => 0.0);
    for row := 0 to n
      invariant KernelFinite(row, kernel)
      invariant forall i, j :: 0 <= i < n && 0 <= j < n && Filled(i, j, row, 0) ==>
        At(m[..], n, i, j) == CovarianceAt(local, kernel, variance, i, j)
    {
      for col := 0 to row + 1
        invariant forall c :: 0 <= c < col && c < row ==> kernel(row, c).Some?
        invariant forall i, j :: 0 <= i < n && 0 <= j < n && Filled(i, j, row, col) ==>
          At(m[..], n, i, j) == CovarianceAt(local, kernel, variance, i, j)
      {
        var c := if row == col
                 then Some(variance + local[row].observationError * local[row].observationError)
                 else kernel(row, col);
        if c.None? {
          return false, [];
        }
        WriteBoth(m, n, row, col, c.value);
      }
    }
    return true, m[..];
  }

  method DotProduct(x: seq<real>, y: seq<real>) returns (sum: real)
    requires |x| == |y|
    ensures sum == Dot(|x|, Line(x), Line(y))
  {
    sum := 0.0;
    for i := 0 to |x|
      invariant sum == Dot(i, Line(x), Line(y))
    {
      sum := sum + x[i] * y[i];
    }
  }

  /** m is the largest magnitude in x, zero when x is empty. */
  ghost predicate IsPeak(m: real, x: seq<real>) {
    && m >= 0.0
    && (forall i :: 0 <= i < |x| ==> -m <= x[i] <= m)
    && (m == 0.0 || exists i :: 0 <= i < |x| && (m == x[i] || m == -x[i]))
  }

  method LargestMagnitude(x: seq<real>) returns (m: real)
    ensures IsPeak(m, x)
  {
    m := 0.0;
    for i := 0 to |x|
      invariant IsPeak(m, x[..i])
    {
      assert x[..i + 1] == x[..i] + [x[i]];
      m := Max(m, Abs(x[i]));
      assert x[..i + 1][i] == x[i];
    }
    assert x[..|x|] == x;
  }

  /** x is raw brought within a multiple f of the largest innovation on both sides, and
      raw itself if every innovation is zero. */
  ghost predicate LimitedByPeak(x: real, raw: real, innovations: seq<real>, f: real) {
    exists m :: IsPeak(m, innovations) && if m > 0.0 then WithinLimit(x, raw, m * f) else x == raw
  }

  method LimitToPeak(raw: real, innovations: seq<real>, f: real) returns (x: real)
    requires f >= 0.0
    ensures LimitedByPeak(x, raw, innovations, f)
  {
    hide WithinLimit, Limited;
    var m := LargestMagnitude(innovations);
    x := Limited(raw, m, f);
    LimitedExact(raw, m, f);
  }

  /** Everything the two solves establish about one jittered system. */
  lemma LocalSolveFacts(a: Mat, l: Mat, n: nat, y1: Vec, alpha: Vec, rhs: Vec, y2: Vec, beta: Vec, t: Vec)
    requires IsFactor(l, a, n) && Symmetric(a, n)
    requires ForwardDone(l, n, y1, rhs) && BackDone(l, 0, n, alpha, y1)
    requires ForwardDone(l, n, y2, t) && BackDone(l, 0, n, beta, y2)
    ensures Solves(a, n, alpha, rhs) && Solves(a, n, beta, t) && Solves(l, n, y2, t)
    ensures Dot(n, t, alpha) == Dot(n, beta, rhs)
    ensures Dot(n, t, beta) == Dot(n, y2, y2)
    ensures Dot(n, y2, y2) >= 0.0
  {
    SubstitutionsSolve(a, l, n, y1, alpha, rhs);
    SubstitutionsSolve(a, l, n, y2, beta, t);
    SymmetricExchange(a, n, alpha, rhs, beta, t);
    QuadraticForm(l, n, y2, beta, t);
  }

  /** l is the factor of the least jittered system that factors, alpha and beta solve
      that system for the right sides r and t, and y is l inverse applied to t. */
  ghost predicate BothSolved(a: Mat, n: nat, baseJitter: real, l: Mat, y: Vec, alpha: Vec, r: Vec, beta: Vec, t: Vec) {
    exists k: nat :: SolvedAt(a, n, baseJitter, l, y, alpha, r, beta, t, k)
  }

  ghost predicate SolvedAt(a: Mat, n: nat, baseJitter: real, l: Mat, y: Vec, alpha: Vec, r: Vec, beta: Vec, t: Vec, k: nat) {
    && FirstFactorable(a, n, baseJitter, k)
    && IsFactor(l, Jittered(a, baseJitter, k), n) && Solves(l, n, y, t)
    && Solves(Jittered(a, baseJitter, k), n, alpha, r)
    && Solves(Jittered(a, baseJitter, k), n, beta, t)
  }

  lemma BothSolvedAt(a: Mat, n: nat, baseJitter: real, l: Mat, y: Vec, alpha: Vec, r: Vec, beta: Vec, t: Vec, k: nat)
    requires FirstFactorable(a, n, baseJitter, k)
    requires IsFactor(l, Jittered(a, baseJitter, k), n) && Solves(l, n, y, t)
    requires Solves(Jittered(a, baseJitter, k), n, alpha, r)
    requires Solves(Jittered(a, baseJitter, k), n, beta, t)
    ensures BothSolved(a, n, baseJitter, l, y, alpha, r, beta, t)
  {
    hide FirstFactorable, IsFactor, Solves;
    assert SolvedAt(a, n, baseJitter, l, y, alpha, r, beta, t, k);
  }

  lemma FactorSolvable(factor: seq<real>, n: nat, a: Mat, b: seq<real>)
    requires |factor| == n * n && |b| == n && IsFactor(Grid(factor, n), a, n)
    ensures Solvable(factor, n, b)
  {
    forall i | 0 <= i < n ensures At(factor, n, i, i) > 0.0 {
      assert Grid(factor, n)(i, i) > 0.0;
    }
  }

  lemma ShiftedSymmetric(a: Mat, n: nat, baseJitter: real, k: nat)
    requires Symmetric(a, n)
    ensures Symmetric(Jittered(a, baseJitter, k), n)
  {
  }

  /** One factorization and the two solves that share it. */
  method SolveBoth(matrix: seq<real>, ghost a: Mat, n: nat, baseJitter: real, r: seq<real>, t: seq<real>,
                   sqrt: real -> real)
    returns (ok: bool, factor: seq<real>, forward: seq<real>, alpha: seq<real>, beta: seq<real>)
    requires IsSqrt(sqrt) && |matrix| == n * n && |r| == n && |t| == n && Symmetric(a, n)
    requires forall i, j :: 0 <= i < n && 0 <= j < n ==> At(matrix, n, i, j) == a(i, j)
    ensures ok <==> !NoAttemptFactors(a, n, baseJitter)
    ensures ok ==> |forward| == |alpha| == |beta| == n
    ensures ok ==> BothSolved(a, n, baseJitter, Grid(factor, n), Line(forward), Line(alpha), Line(r), Line(beta), Line(t))
    ensures ok ==> Dot(n, Line(t), Line(alpha)) == Dot(n, Line(beta), Line(r))
    ensures ok ==> Dot(n, Line(t), Line(beta)) == Dot(n, Line(forward), Line(forward))
    ensures ok ==> Dot(n, Line(forward), Line(forward)) >= 0.0
  {
    hide *;
    forward, alpha, beta := [], [], [];
    ghost var attempt: nat;
    ok, factor, attempt := FactorWithJitter(matrix, a, n, baseJitter, sqrt);
    if !ok {
      return;
    }
    ghost var l, shifted := Grid(factor, n), Jittered(a, baseJitter, attempt);
    FactorSolvable(factor, n, shifted, r);
    FactorSolvable(factor, n, shifted, t);
    ok, forward, alpha := SolveInto(factor, n, r);
    ghost var y1 := Line(forward);
    if ok {
      ok, forward, beta := SolveInto(factor, n, t);
      ShiftedSymmetric(a, n, baseJitter, attempt);
      LocalSolveFacts(shifted, l, n, y1, Line(alpha), Line(r), Line(forward), Line(beta), Line(t));
      BothSolvedAt(a, n, baseJitter, l, Line(forward), Line(alpha), Line(r), Line(beta), Line(t), attempt);
    }
  }

  /** The scratch vectors one worker reuses from cell to cell. */
  class OiWorkspace {
    var local: seq<LocalObservation>
    var matrix: seq<real>
    var rhs: seq<real>
    var targetCovariances: seq<real>
    var factor: seq<real>
    var forwardSolution: seq<real>
    var alpha: seq<real>
    var beta: seq<real>

    constructor ()
      ensures local == []
    {
      local, matrix, rhs, targetCovariances := [], [], [], [];
      factor, forwardSolution, alpha, beta := [], [], [], [];
    }

    /** factor is that of the least jittered system that factors, alpha and beta solve
        the system for the innovations and for the target covariances, and the forward
        solution is the factor's inverse applied to the target covariances. */
    ghost predicate Solved(kernel: Kernel, variance: real, baseJitter: real)
      reads this
    {
      var n := |local|;
      var a := Covariance(local, kernel, variance);
      && |rhs| == |targetCovariances| == |alpha| == |beta| == |forwardSolution| == n
      && (forall i :: 0 <= i < n ==> rhs[i] == local[i].increment)
      && (forall i :: 0 <= i < n ==> targetCovariances[i] == local[i].targetCovariance)
      && BothSolved(a, n, baseJitter, Grid(factor, n), Line(forwardSolution),
                    Line(alpha), Line(rhs), Line(beta), Line(targetCovariances))
    }

    /** The analysis increment and its confidence for the current cell. */
    method SolveLocalIncrement(kernel: Kernel, variance: real, jitterFraction: real,
                               innovationFactor: real, sqrt: real -> real)
      returns (r: Option<(real, real)>)
      requires IsSqrt(sqrt) && variance > 0.0 && innovationFactor >= 0.0
      modifies this
      ensures local == old(local)
      // fails exactly on a non-finite kernel value or when no attempt factors
      ensures r.None? <==>
              || !KernelFinite(|local|, kernel)
              || NoAttemptFactors(Covariance(local, kernel, variance), |local|, BaseJitter(variance, jitterFraction))
      ensures r.Some? ==> Solved(kernel, variance, BaseJitter(variance, jitterFraction))
      // the increment before limiting, read either way round
      ensures r.Some? ==>
                var raw := Dot(|local|, Line(beta), Line(rhs));
                raw == Dot(|local|, Line(targetCovariances), Line(alpha)) &&
                LimitedByPeak(r.value.0, raw, rhs, innovationFactor)
      // the confidence is the squared length of the forward solution, which is also the
      // covariance explained, over the background variance and capped at one
      ensures r.Some? ==>
                var explained := Dot(|local|, Line(forwardSolution), Line(forwardSolution));
                && explained == Dot(|local|, Line(targetCovariances), Line(beta)) >= 0.0
                && CappedShare(r.value.1, explained, variance)
    {
      hide Dot, BothSolved, NoAttemptFactors, IsPeak, KernelFinite, CovarianceAt, At, IsSqrt, BaseJitter, Clamp, Symmetric, CappedShare, LimitedByPeak;
      var n := |local|;
      var obs := local;
      rhs := seq(n, i requires 0 <= i < n => obs[i].increment);
      targetCovariances := seq(n, i requires 0 <= i < n => obs[i].targetCovariance);
      var filled: bool;
      filled, matrix := FillCovariance(local, kernel, variance);
      if !filled {
        return None;
      }
      var baseJitter := BaseJitter(variance, jitterFraction);
      ghost var a := Covariance(local, kernel, variance);
      CovarianceSymmetric(obs, kernel, variance);
      var solved: bool;
      solved, factor, forwardSolution, alpha, beta :=
        SolveBoth(matrix, a, n, baseJitter, rhs, targetCovariances, sqrt);
      if !solved {
        return None;
      }
      var raw := DotProduct(targetCovariances, alpha);
      var increment := LimitToPeak(raw, rhs, innovationFactor);
      var explained := DotProduct(targetCovariances, beta);
      ClampShare(explained, variance);
      return Some((increment, Clamp(explained / variance, 0.0, 1.0)));
    }
  }

  lemma CovarianceSymmetric(local: seq<LocalObservation>, kernel: Kernel, variance: real)
    ensures Symmetric(Covariance(local, kernel, variance), |local|)
  {
  }

  lemma ClampShare(x: real, variance: real)
    requires x >= 0.0 && variance > 0.0
    ensures CappedShare(Clamp(x / variance, 0.0, 1.0), x, variance)
  {
    assert x / variance * variance == x;
  }
}
