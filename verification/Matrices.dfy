/** Square matrices and vectors. The algebra is stated on total index functions;
    `Grid` and `Line` read such a function out of the flat row-major storage the
    analysis workspace keeps. */
module Matrices {

  type Mat = (int, int) -> real
  type Vec = int -> real

  /** Row i of the product of a with x, over columns 0 .. n - 1. */
  ghost function Row(a: Mat, n: nat, x: Vec, i: int): real {
    if n == 0 then 0.0 else Row(a, n - 1, x, i) + a(i, n - 1) * x(n - 1)
  }

  /** Row j of the product of the transpose of a with x, over rows 0 .. n - 1 of a. */
  ghost function Col(a: Mat, n: nat, x: Vec, j: int): real {
    if n == 0 then 0.0 else Col(a, n - 1, x, j) + a(n - 1, j) * x(n - 1)
  }

  ghost function Dot(n: nat, x: Vec, y: Vec): real {
    if n == 0 then 0.0 else Dot(n - 1, x, y) + x(n - 1) * y(n - 1)
  }

  /** Entry (i, j) of l times its own transpose, over the first n columns. */
  ghost function Gram(l: Mat, n: nat, i: int, j: int): real {
    if n == 0 then 0.0 else Gram(l, n - 1, i, j) + l(i, n - 1) * l(j, n - 1)
  }

  /** a x = b */
  ghost predicate Solves(a: Mat, n: nat, x: Vec, b: Vec) {
    forall i :: 0 <= i < n ==> Row(a, n, x, i) == b(i)
  }

  /** (transpose a) x = b */
  ghost predicate SolvesTransposed(a: Mat, n: nat, x: Vec, b: Vec) {
    forall j :: 0 <= j < n ==> Col(a, n, x, j) == b(j)
  }

  ghost predicate Symmetric(a: Mat, n: nat) {
    forall i, j :: 0 <= i < n && 0 <= j < n ==> a(i, j) == a(j, i)
  }

  /** a with c added along the diagonal. */
  ghost function Shifted(a: Mat, c: real): Mat {
    (i, j) => a(i, j) + (if i == j then c else 0.0)
  }

  // ---- the two orders of a double sum ----

  /** u . (a v) over the leading m-by-n block, row by row. */
  ghost function ByRows(a: Mat, m: nat, n: nat, u: Vec, v: Vec): real {
    if m == 0 then 0.0 else ByRows(a, m - 1, n, u, v) + u(m - 1) * Row(a, n, v, m - 1)
  }

  /** The same form, column by column. */
  ghost function ByCols(a: Mat, m: nat, n: nat, u: Vec, v: Vec): real {
    if n == 0 then 0.0 else ByCols(a, m, n - 1, u, v) + v(n - 1) * Col(a, m, u, n - 1)
  }

  lemma {:induction false} ByRowsLastColumn(a: Mat, m: nat, n: nat, u: Vec, v: Vec)
    requires n > 0
    ensures ByRows(a, m, n, u, v) == ByRows(a, m, n - 1, u, v) + v(n - 1) * Col(a, m, u, n - 1)
  {
    if m != 0 { ByRowsLastColumn(a, m - 1, n, u, v); }
  }

  lemma {:induction false} ByRowsNoColumns(a: Mat, m: nat, u: Vec, v: Vec)
    ensures ByRows(a, m, 0, u, v) == 0.0
  {
    if m != 0 { ByRowsNoColumns(a, m - 1, u, v); }
  }

  lemma {:induction false} SumExchange(a: Mat, m: nat, n: nat, u: Vec, v: Vec)
    ensures ByRows(a, m, n, u, v) == ByCols(a, m, n, u, v)
  {
    if n == 0 {
      ByRowsNoColumns(a, m, u, v);
    } else {
      ByRowsLastColumn(a, m, n, u, v);
      SumExchange(a, m, n - 1, u, v);
    }
  }

  // ---- solutions substituted into the forms ----

  lemma {:induction false} ByRowsIsDot(a: Mat, m: nat, n: nat, u: Vec, v: Vec, b: Vec)
    requires forall i :: 0 <= i < m ==> Row(a, n, v, i) == b(i)
    ensures ByRows(a, m, n, u, v) == Dot(m, b, u)
  {
    if m != 0 { ByRowsIsDot(a, m - 1, n, u, v, b); }
  }

  lemma {:induction false} ByColsIsDot(a: Mat, m: nat, n: nat, u: Vec, v: Vec, b: Vec)
    requires forall j :: 0 <= j < n ==> Col(a, m, u, j) == b(j)
    ensures ByCols(a, m, n, u, v) == Dot(n, v, b)
  {
    if n != 0 { ByColsIsDot(a, m, n - 1, u, v, b); }
  }

  lemma {:induction false} SymmetricRowIsCol(a: Mat, n: nat, k: nat, x: Vec, i: int)
    requires Symmetric(a, n) && k <= n && 0 <= i < n
    ensures Row(a, k, x, i) == Col(a, k, x, i)
  {
    if k != 0 { SymmetricRowIsCol(a, n, k - 1, x, i); }
  }

  /** For symmetric a with a alpha = r and a beta = t: t . alpha == beta . r. */
  lemma SymmetricExchange(a: Mat, n: nat, alpha: Vec, r: Vec, beta: Vec, t: Vec)
    requires Symmetric(a, n) && Solves(a, n, alpha, r) && Solves(a, n, beta, t)
    ensures Dot(n, t, alpha) == Dot(n, beta, r)
  {
    forall j | 0 <= j < n ensures Col(a, n, alpha, j) == r(j) {
      SymmetricRowIsCol(a, n, n, alpha, j);
    }
    ByRowsIsDot(a, n, n, alpha, beta, t);
    ByColsIsDot(a, n, n, alpha, beta, r);
    SumExchange(a, n, n, alpha, beta);
  }

  lemma {:induction false} DotNonNegative(n: nat, y: Vec)
    ensures Dot(n, y, y) >= 0.0
  {
    if n != 0 { DotNonNegative(n - 1, y); }
  }

  /** With l y = t and (transpose l) beta = y: t . beta == y . y. */
  lemma QuadraticForm(l: Mat, n: nat, y: Vec, beta: Vec, t: Vec)
    requires Solves(l, n, y, t) && SolvesTransposed(l, n, beta, y)
    ensures Dot(n, t, beta) == Dot(n, y, y) >= 0.0
  {
    ByRowsIsDot(l, n, n, beta, y, t);
    ByColsIsDot(l, n, n, beta, y, y);
    SumExchange(l, n, n, beta, y);
    DotNonNegative(n, y);
  }

  lemma {:induction false} GramIsRow(l: Mat, n: nat, i: int, j: int)
    ensures Gram(l, n, i, j) == Row(l, n, k => l(i, k), j)
  {
    if n != 0 { GramIsRow(l, n - 1, i, j); }
  }

  lemma {:induction false} RowIsByRows(a: Mat, l: Mat, m: nat, n: nat, x: Vec, i: int)
    requires forall j :: 0 <= j < m ==> a(i, j) == Gram(l, n, i, j)
    ensures Row(a, m, x, i) == ByRows(l, m, n, x, k => l(i, k))
  {
    if m != 0 {
      RowIsByRows(a, l, m - 1, n, x, i);
      GramIsRow(l, n, i, m - 1);
    }
  }

  lemma {:induction false} DotIsRow(l: Mat, n: nat, y: Vec, i: int)
    ensures Dot(n, k => l(i, k), y) == Row(l, n, y, i)
  {
    if n != 0 { DotIsRow(l, n - 1, y, i); }
  }

  /** a x = l ((transpose l) x) when a is l times its transpose. */
  lemma GramApplied(a: Mat, l: Mat, n: nat, x: Vec, y: Vec, i: int)
    requires forall j :: 0 <= j < n ==> a(i, j) == Gram(l, n, i, j)
    requires SolvesTransposed(l, n, x, y)
    ensures Row(a, n, x, i) == Row(l, n, y, i)
  {
    RowIsByRows(a, l, n, n, x, i);
    SumExchange(l, n, n, x, k => l(i, k));
    ByColsIsDot(l, n, n, x, k => l(i, k), y);
    DotIsRow(l, n, y, i);
  }

  /** Solving with l and then with its transpose solves with l times its transpose. */
  lemma TwoTriangularSolves(a: Mat, l: Mat, n: nat, y: Vec, x: Vec, b: Vec)
    requires forall i, j :: 0 <= i < n && 0 <= j < n ==> a(i, j) == Gram(l, n, i, j)
    requires Solves(l, n, y, b) && SolvesTransposed(l, n, x, y)
    ensures Solves(a, n, x, b)
  {
    forall i | 0 <= i < n ensures Row(a, n, x, i) == b(i) {
      GramApplied(a, l, n, x, y, i);
    }
  }

  /** Conversely, a solution of the product system passes through both factors. */
  lemma ApplyTransposeThenFactor(a: Mat, l: Mat, n: nat, x: Vec, y: Vec, b: Vec)
    requires forall i, j :: 0 <= i < n && 0 <= j < n ==> a(i, j) == Gram(l, n, i, j)
    requires Solves(a, n, x, b) && SolvesTransposed(l, n, x, y)
    ensures Solves(l, n, y, b)
  {
    forall i | 0 <= i < n ensures Row(l, n, y, i) == b(i) {
      GramApplied(a, l, n, x, y, i);
    }
  }

  // ---- flat row-major storage ----

  lemma IndexInRange(n: nat, i: int, j: int)
    requires 0 <= i < n && 0 <= j < n
    ensures 0 <= i * n + j < n * n
  {
    assert (i + 1) * n <= n * n;
  }

  lemma IndexInjective(n: nat, i: int, j: int, k: int, l: int)
    requires 0 <= i && 0 <= j < n && 0 <= k && 0 <= l < n
    ensures i * n + j == k * n + l ==> i == k && j == l
  {
    if i < k { assert (i + 1) * n <= k * n; }
    if k < i { assert (k + 1) * n <= i * n; }
  }

  /** Entry (i, j) of the n-by-n matrix stored in m; zero outside it. */
  ghost function At(m: seq<real>, n: nat, i: int, j: int): real {
    if 0 <= i < n && 0 <= j < n && |m| == n * n
    then IndexInRange(n, i, j); m[i * n + j]
    else 0.0
  }

  ghost function Elem(v: seq<real>, i: int): real {
    if 0 <= i < |v| then v[i] else 0.0
  }

  ghost function Grid(m: seq<real>, n: nat): Mat { (i, j) => At(m, n, i, j) }

  ghost function Line(v: seq<real>): Vec { i => Elem(v, i) }

  /** Writing one cell changes that entry and no other. */
  lemma AtUpdate(m: seq<real>, n: nat, r: int, c: int, p: int, x: real, i: int, j: int)
    requires |m| == n * n && 0 <= r < n && 0 <= c < n && p == r * n + c
    requires 0 <= p < |m|
    ensures At(m[p := x], n, i, j) == if i == r && j == c then x else At(m, n, i, j)
  {
    if 0 <= i < n && 0 <= j < n {
      IndexInjective(n, i, j, r, c);
      IndexInRange(n, i, j);
      var q := i * n + j;
      assert At(m[p := x], n, i, j) == m[p := x][q] && At(m, n, i, j) == m[q];
    }
  }
}
