/** Forward and back substitution with a stored factor. */
module CholeskySolve {
  import opened Matrices
  import opened Cholesky

  lemma {:induction false} RowAgrees(a: Mat, n: nat, x: Vec, y: Vec, i: int)
    requires forall k :: 0 <= k < n ==> x(k) == y(k)
    ensures Row(a, n, x, i) == Row(a, n, y, i)
  {
    if n != 0 { RowAgrees(a, n - 1, x, y, i); }
  }

  /** Entries right of the diagonal contribute nothing to a row product. */
  lemma {:induction false} RowTruncate(l: Mat, n: nat, k: nat, x: Vec, i: int)
    requires forall r, c :: 0 <= r < c < n ==> l(r, c) == 0.0
    requires 0 <= i < n && i + 1 <= k <= n
    ensures Row(l, k, x, i) == Row(l, i + 1, x, i)
    decreases k
  {
    if k > i + 1 { RowTruncate(l, n, k - 1, x, i); }
  }

  /** The part of column j's product with x that lies in rows lo .. hi - 1. */
  ghost function ColRange(a: Mat, lo: int, hi: int, x: Vec, j: int): real
    decreases hi - lo
  {
    if hi <= lo then 0.0 else ColRange(a, lo, hi - 1, x, j) + a(hi - 1, j) * x(hi - 1)
  }

  lemma ColRangeNone(a: Mat, lo: int, x: Vec, j: int)
    ensures ColRange(a, lo, lo, x, j) == 0.0
  {
  }

  lemma ColRangeLast(a: Mat, lo: int, hi: int, x: Vec, j: int)
    requires lo <= hi
    ensures ColRange(a, lo, hi + 1, x, j) == ColRange(a, lo, hi, x, j) + a(hi, j) * x(hi)
  {
  }

  lemma {:induction false} ColRangeAgrees(a: Mat, lo: int, hi: int, x: Vec, y: Vec, j: int)
    requires forall k :: lo <= k < hi ==> x(k) == y(k)
    ensures ColRange(a, lo, hi, x, j) == ColRange(a, lo, hi, y, j)
    decreases hi - lo
  {
    if lo < hi { ColRangeAgrees(a, lo, hi - 1, x, y, j); }
  }

  /** Entries above the diagonal contribute nothing to a column product. */
  lemma {:induction false} ColTruncate(l: Mat, n: nat, k: nat, x: Vec, j: int)
    requires forall r, c :: 0 <= r < c < n ==> l(r, c) == 0.0
    requires 0 <= j < n && k <= n
    ensures Col(l, k, x, j) == if k <= j then 0.0 else l(j, j) * x(j) + ColRange(l, j + 1, k, x, j)
    decreases k
  {
    if k != 0 { ColTruncate(l, n, k - 1, x, j); }
  }

  lemma ProductOfQuotient(x: real, d: real)
    requires d != 0.0
    ensures d * (x / d) == x
  {
  }

  ghost predicate ForwardDone(l: Mat, rows: nat, y: Vec, b: Vec) {
    forall i :: 0 <= i < rows ==> Row(l, i + 1, y, i) == b(i)
  }

  ghost predicate BackDone(l: Mat, from: int, n: nat, x: Vec, y: Vec) {
    forall j :: from <= j < n ==> BackRow(l, j, n, x, y)
  }

  /** Equation j of the transposed system, for a lower-triangular l. */
  ghost predicate BackRow(l: Mat, j: int, n: nat, x: Vec, y: Vec) {
    l(j, j) * x(j) + ColRange(l, j + 1, n, x, j) == y(j)
  }

  lemma BackRowAgrees(l: Mat, j: int, n: nat, x: Vec, x': Vec, y: Vec)
    requires BackRow(l, j, n, x, y) && forall k :: j <= k < n ==> x'(k) == x(k)
    requires j < n
    ensures BackRow(l, j, n, x', y)
  {
    hide ColRange;
    ColRangeAgrees(l, j + 1, n, x, x', j);
    SameProduct(l(j, j), x(j), x'(j));
  }

  lemma SameProduct(d: real, x: real, y: real)
    requires x == y
    ensures d * x == d * y
  {
  }

  lemma RowLast(a: Mat, n: nat, x: Vec, i: int)
    ensures Row(a, n + 1, x, i) == Row(a, n, x, i) + a(i, n) * x(n)
  {
  }

  lemma ForwardStep(l: Mat, row: nat, y: Vec, y': Vec, b: Vec)
    requires ForwardDone(l, row, y, b)
    requires forall k :: 0 <= k < row ==> y'(k) == y(k)
    requires l(row, row) * y'(row) == b(row) - Row(l, row, y, row)
    ensures ForwardDone(l, row + 1, y', b)
  {
    hide Row;
    RowLast(l, row, y', row);
    forall i | 0 <= i < row + 1 ensures Row(l, i + 1, y', i) == b(i) {
      if i < row {
        RowAgrees(l, i + 1, y, y', i);
      } else {
        RowAgrees(l, row, y, y', row);
      }
    }
  }

  lemma BackStep(l: Mat, row: nat, n: nat, x: Vec, x': Vec, y: Vec)
    requires row < n && BackDone(l, row + 1, n, x, y)
    requires forall k :: row + 1 <= k < n ==> x'(k) == x(k)
    requires l(row, row) * x'(row) == y(row) - ColRange(l, row + 1, n, x, row)
    ensures BackDone(l, row, n, x', y)
  {
    hide ColRange;
    ColRangeAgrees(l, row + 1, n, x, x', row);
    assert BackRow(l, row, n, x', y);
    hide BackRow;
    forall j | row < j < n ensures BackRow(l, j, n, x', y) {
      BackRowAgrees(l, j, n, x, x', y);
    }
  }

  /** The substitutions solve both triangular systems, hence the factored one. */
  lemma SubstitutionsSolve(a: Mat, l: Mat, n: nat, y: Vec, x: Vec, b: Vec)
    requires IsFactor(l, a, n) && Symmetric(a, n)
    requires ForwardDone(l, n, y, b) && BackDone(l, 0, n, x, y)
    ensures Solves(l, n, y, b) && SolvesTransposed(l, n, x, y) && Solves(a, n, x, b)
  {
    forall i | 0 <= i < n ensures Row(l, n, y, i) == b(i) {
      RowTruncate(l, n, n, y, i);
    }
    forall j | 0 <= j < n ensures Col(l, n, x, j) == y(j) {
      assert BackRow(l, j, n, x, y);
      ColTruncate(l, n, n, x, j);
    }
    FactorGram(a, l, n);
    TwoTriangularSolves(a, l, n, y, x, b);
  }

  /** Two solutions of one lower-triangular system are equal. */
  lemma {:induction false} ForwardUnique(l: Mat, n: nat, y: Vec, z: Vec, b: Vec, i: int)
    requires IsLowerPositive(l, n) && Solves(l, n, y, b) && Solves(l, n, z, b) && 0 <= i < n
    ensures y(i) == z(i)
    decreases i
  {
    hide Row;
    forall k | 0 <= k < i ensures y(k) == z(k) {
      ForwardUnique(l, n, y, z, b, k);
    }
    RowLast(l, i, y, i);
    RowLast(l, i, z, i);
    RowTruncate(l, n, n, y, i);
    RowTruncate(l, n, n, z, i);
    RowAgrees(l, i, y, z, i);
    assert Row(l, n, y, i) == b(i) == Row(l, n, z, i);
    CancelFactor(l(i, i), y(i), z(i), b(i) - Row(l, i, y, i));
  }

  lemma {:induction false} BackUnique(l: Mat, n: nat, x: Vec, z: Vec, y: Vec, j: int)
    requires IsLowerPositive(l, n) && 0 <= j < n
    requires SolvesTransposed(l, n, x, y) && SolvesTransposed(l, n, z, y)
    ensures x(j) == z(j)
    decreases n - j
  {
    hide Col, ColRange;
    forall k | j < k < n ensures x(k) == z(k) {
      BackUnique(l, n, x, z, y, k);
    }
    ColRangeAgrees(l, j + 1, n, x, z, j);
    var rest := y(j) - ColRange(l, j + 1, n, x, j);
    DiagonalTerm(l, n, x, y, j, rest);
    DiagonalTerm(l, n, z, y, j, rest);
    CancelFactor(l(j, j), x(j), z(j), rest);
  }

  /** Equation j of the transposed system, solved for its diagonal term. */
  lemma DiagonalTerm(l: Mat, n: nat, x: Vec, y: Vec, j: int, rest: real)
    requires IsLowerPositive(l, n) && 0 <= j < n && SolvesTransposed(l, n, x, y)
    requires rest == y(j) - ColRange(l, j + 1, n, x, j)
    ensures l(j, j) * x(j) == rest && l(j, j) != 0.0
  {
    hide Col, ColRange;
    ColTruncate(l, n, n, x, j);
    assert Col(l, n, x, j) == y(j);
  }

  lemma CancelFactor(d: real, x: real, y: real, c: real)
    requires d != 0.0 && d * x == c && d * y == c
    ensures x == y
  {
    assert d * (x - y) == 0.0;
  }

  /** A system with a Cholesky factor has at most one solution. */
  lemma SolutionUnique(a: Mat, l: Mat, n: nat, x: Vec, z: Vec, b: Vec, j: int)
    requires IsFactor(l, a, n) && Symmetric(a, n)
    requires Solves(a, n, x, b) && Solves(a, n, z, b) && 0 <= j < n
    ensures x(j) == z(j)
  {
    var y, w := k => Col(l, n, x, k), k => Col(l, n, z, k);
    FactorGram(a, l, n);
    ApplyTransposeThenFactor(a, l, n, x, y, b);
    ApplyTransposeThenFactor(a, l, n, z, w, b);
    forall k | 0 <= k < n ensures Col(l, n, z, k) == y(k) {
      ForwardUnique(l, n, y, w, b, k);
    }
    BackUnique(l, n, x, z, y, j);
  }

  lemma FactorGram(a: Mat, l: Mat, n: nat)
    requires IsFactor(l, a, n) && Symmetric(a, n)
    ensures forall i, j :: 0 <= i < n && 0 <= j < n ==> a(i, j) == Gram(l, n, i, j)
  {
    forall i, j | 0 <= i < n && 0 <= j < n ensures a(i, j) == Gram(l, n, i, j) {
      GramSymmetric(l, n, i, j);
      if j <= i { assert Gram(l, n, i, j) == a(i, j); } else { assert Gram(l, n, j, i) == a(j, i); }
    }
  }

  lemma {:induction false} GramSymmetric(l: Mat, n: nat, i: int, j: int)
    ensures Gram(l, n, i, j) == Gram(l, n, j, i)
  {
    if n != 0 { GramSymmetric(l, n - 1, i, j); }
  }

  ghost predicate Solvable(factor: seq<real>, n: nat, rhs: seq<real>) {
    && |factor| == n * n && |rhs| == n
    && forall i :: 0 <= i < n ==> At(factor, n, i, i) > 0.0
  }

  method ForwardResidual(factor: seq<real>, n: nat, rhs: seq<real>, y: seq<real>, row: nat)
    returns (sum: real)
    requires |factor| == n * n && |rhs| == n && |y| == n && row < n
    ensures sum == rhs[row] - Row(Grid(factor, n), row, Line(y), row)
  {
    sum := rhs[row];
    for col := 0 to row
      invariant sum == rhs[row] - Row(Grid(factor, n), col, Line(y), row)
    {
      IndexInRange(n, row, col);
      sum := sum - factor[row * n + col] * y[col];
    }
  }

  method BackResidual(factor: seq<real>, n: nat, y: seq<real>, x: seq<real>, row: nat)
    returns (sum: real)
    requires |factor| == n * n && |y| == n && |x| == n && row < n
    ensures sum == y[row] - ColRange(Grid(factor, n), row + 1, n, Line(x), row)
  {
    hide ColRange;
    sum := y[row];
    ColRangeNone(Grid(factor, n), row + 1, Line(x), row);
    for col := row + 1 to n
      invariant sum == y[row] - ColRange(Grid(factor, n), row + 1, col, Line(x), row)
    {
      IndexInRange(n, col, row);
      ColRangeLast(Grid(factor, n), row + 1, col, Line(x), row);
      sum := sum - factor[col * n + row] * x[col];
    }
  }

  method ForwardSubstitute(factor: seq<real>, n: nat, rhs: seq<real>) returns (ok: bool, y: seq<real>)
    requires |factor| == n * n && |rhs| == n
    ensures ok <==> Solvable(factor, n, rhs)
    ensures ok ==> |y| == n && ForwardDone(Grid(factor, n), n, Line(y), Line(rhs))
  {
    ghost var l := Grid(factor, n);
    y := seq(n, _ => 0.0);
    for row := 0 to n
      invariant |y| == n
      invariant forall i :: 0 <= i < row ==> At(factor, n, i, i) > 0.0
      invariant ForwardDone(l, row, Line(y), Line(rhs))
    {
      var sum := ForwardResidual(factor, n, rhs, y, row);
      IndexInRange(n, row, row);
      var diagonal := factor[row * n + row];
      if !(diagonal > 0.0) {
        assert !(At(factor, n, row, row) > 0.0);
        return false, y;
      }
      ghost var before := y;
      y := y[row := sum / diagonal];
      ProductOfQuotient(sum, diagonal);
      ForwardStep(l, row, Line(before), Line(y), Line(rhs));
    }
    return true, y;
  }

  lemma BackNothing(l: Mat, n: nat, y: seq<real>)
    ensures forall x: Vec :: BackDone(l, n, n, x, Line(y))
  {
  }

  method BackSubstitute(factor: seq<real>, n: nat, y: seq<real>) returns (ok: bool, x: seq<real>)
    requires |factor| == n * n && |y| == n
    ensures ok <==> Solvable(factor, n, y)
    ensures ok ==> |x| == n && BackDone(Grid(factor, n), 0, n, Line(x), Line(y))
  {
    hide BackDone, ColRange;
    BackNothing(Grid(factor, n), n, y);
    ghost var l := Grid(factor, n);
    x := seq(n, _ => 0.0);
    for row := n downto 0
      invariant |x| == n
      invariant forall i :: row <= i < n ==> At(factor, n, i, i) > 0.0
      invariant BackDone(l, row, n, Line(x), Line(y))
    {
      var sum := BackResidual(factor, n, y, x, row);
      IndexInRange(n, row, row);
      var diagonal := factor[row * n + row];
      if !(diagonal > 0.0) {
        assert !(At(factor, n, row, row) > 0.0);
        return false, x;
      }
      ghost var before := x;
      x := x[row := sum / diagonal];
      ProductOfQuotient(sum, diagonal);
      BackStep(l, row, n, Line(before), Line(x), Line(y));
    }
    return true, x;
  }

  /** Solve with a stored factor; false exactly on a size mismatch or a
      nonpositive diagonal entry. */
  method SolveInto(factor: seq<real>, n: nat, rhs: seq<real>)
    returns (ok: bool, forward: seq<real>, output: seq<real>)
    ensures ok <==> Solvable(factor, n, rhs)
    ensures ok ==> |forward| == n && |output| == n
    ensures ok ==> ForwardDone(Grid(factor, n), n, Line(forward), Line(rhs))
    ensures ok ==> BackDone(Grid(factor, n), 0, n, Line(output), Line(forward))
  {
    forward, output := [], [];
    if |factor| != n * n || |rhs| != n {
      return false, forward, output;
    }
    ok, forward := ForwardSubstitute(factor, n, rhs);
    if ok {
      ok, output := BackSubstitute(factor, n, forward);
    }
  }
}
