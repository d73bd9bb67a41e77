/** The dense factorization and solve behind the optimal-interpolation analysis:
    in-place Cholesky, diagonal jitter retries, forward and back substitution. */
module Cholesky {
  import opened Matrices

  /** What the factorization needs of the square root. */
  ghost predicate IsSqrt(sqrt: real -> real) {
    forall x: real :: x > 0.0 ==> sqrt(x) > 0.0 && sqrt(x) * sqrt(x) == x
  }

  ghost predicate IsLowerPositive(l: Mat, n: nat) {
    && (forall i, j :: 0 <= i < j < n ==> l(i, j) == 0.0)
    && (forall i :: 0 <= i < n ==> l(i, i) > 0.0)
  }

  /** l is lower triangular with a positive diagonal, and l times its transpose
      has the lower triangle of a. */
  ghost predicate IsFactor(l: Mat, a: Mat, n: nat) {
    && IsLowerPositive(l, n)
    && forall i, j :: 0 <= j <= i < n ==> Gram(l, n, i, j) == a(i, j)
  }

  ghost predicate Factorable(a: Mat, n: nat) {
    exists l: Mat :: IsFactor(l, a, n)
  }

  // ---- the factor as a recursive definition ----

  /** a(i, j) less the first k products of factor rows i and j. */
  ghost function Residual(a: Mat, sqrt: real -> real, i: int, j: int, k: int): real
    requires 0 <= k <= j <= i
    decreases i, j, 0, k
  {
    if k == 0 then a(i, j)
    else Residual(a, sqrt, i, j, k - 1) - Entry(a, sqrt, i, k - 1) * Entry(a, sqrt, j, k - 1)
  }

  ghost function Entry(a: Mat, sqrt: real -> real, i: int, j: int): real
    decreases i, j, 1, 0
  {
    if !(0 <= j <= i) then 0.0
    else if i == j then sqrt(Residual(a, sqrt, i, i, i))
    else
      var d := Entry(a, sqrt, j, j);
      if d > 0.0 then Residual(a, sqrt, i, j, j) / d else 0.0
  }

  ghost function Factor(a: Mat, sqrt: real -> real): Mat { (i, j) => Entry(a, sqrt, i, j) }

  ghost predicate PivotsPositive(a: Mat, sqrt: real -> real, n: nat) {
    forall i :: 0 <= i < n ==> Residual(a, sqrt, i, i, i) > 0.0
  }

  lemma {:induction false} ResidualIsGram(a: Mat, sqrt: real -> real, i: int, j: int, k: int)
    requires 0 <= k <= j <= i
    ensures Residual(a, sqrt, i, j, k) == a(i, j) - Gram(Factor(a, sqrt), k, i, j)
    decreases k
  {
    if k != 0 { ResidualIsGram(a, sqrt, i, j, k - 1); }
  }

  /** Columns right of the diagonal of the shorter row contribute nothing. */
  lemma {:induction false} GramTruncate(l: Mat, n: nat, i: int, j: int, k: int)
    requires forall r, c :: 0 <= r < c < n ==> l(r, c) == 0.0
    requires 0 <= j < n && j + 1 <= k <= n
    ensures Gram(l, k, i, j) == Gram(l, j, i, j) + l(i, j) * l(j, j)
    decreases k
  {
    if k > j + 1 { GramTruncate(l, n, i, j, k - 1); }
  }

  lemma EntryTimesDiagonal(a: Mat, sqrt: real -> real, i: int, j: int)
    requires IsSqrt(sqrt) && 0 <= j <= i && Residual(a, sqrt, j, j, j) > 0.0
    ensures Entry(a, sqrt, j, j) > 0.0
    ensures Entry(a, sqrt, i, j) * Entry(a, sqrt, j, j) == Residual(a, sqrt, i, j, j)
  {
    assert Entry(a, sqrt, j, j) == sqrt(Residual(a, sqrt, j, j, j));
  }

  lemma FactorIsLowerPositive(a: Mat, sqrt: real -> real, n: nat)
    requires IsSqrt(sqrt) && PivotsPositive(a, sqrt, n)
    ensures IsLowerPositive(Factor(a, sqrt), n)
  {
    forall i | 0 <= i < n ensures Factor(a, sqrt)(i, i) > 0.0 {
      EntryTimesDiagonal(a, sqrt, i, i);
    }
  }

  lemma GramOfFactor(a: Mat, sqrt: real -> real, n: nat, i: int, j: int)
    requires IsSqrt(sqrt) && PivotsPositive(a, sqrt, n) && 0 <= j <= i < n
    ensures Gram(Factor(a, sqrt), n, i, j) == a(i, j)
  {
    hide Residual, Entry, Gram;
    FactorIsLowerPositive(a, sqrt, n);
    GramTruncate(Factor(a, sqrt), n, i, j, n);
    ResidualIsGram(a, sqrt, i, j, j);
    EntryTimesDiagonal(a, sqrt, i, j);
  }

  lemma PivotsGiveFactor(a: Mat, sqrt: real -> real, n: nat)
    requires IsSqrt(sqrt) && PivotsPositive(a, sqrt, n)
    ensures IsFactor(Factor(a, sqrt), a, n)
  {
    FactorIsLowerPositive(a, sqrt, n);
    forall i, j | 0 <= j <= i < n ensures Gram(Factor(a, sqrt), n, i, j) == a(i, j) {
      GramOfFactor(a, sqrt, n, i, j);
    }
  }

  lemma PositiveSquaresAgree(s: real, t: real)
    requires s > 0.0 && t > 0.0 && s * s == t * t
    ensures s == t
  {
    assert (s - t) * (s + t) == 0.0;
  }

  lemma QuotientOfProduct(x: real, d: real)
    requires d != 0.0
    ensures x * d / d == x
  {
  }

  /** Every factor agrees entry by entry with the recursive definition, whose
      pivots are therefore positive. */
  lemma {:induction false} FactorIsEntry(l: Mat, a: Mat, sqrt: real -> real, n: nat, i: int, j: int)
    requires IsSqrt(sqrt) && IsFactor(l, a, n) && 0 <= j <= i < n
    ensures l(i, j) == Entry(a, sqrt, i, j)
    ensures i == j ==> Residual(a, sqrt, i, i, i) > 0.0
    decreases i, j
  {
    hide Residual, Gram;
    forall k | 0 <= k < j
      ensures l(i, k) == Entry(a, sqrt, i, k) && l(j, k) == Entry(a, sqrt, j, k)
    {
      FactorIsEntry(l, a, sqrt, n, i, k);
      FactorIsEntry(l, a, sqrt, n, j, k);
    }
    GramTruncate(l, n, i, j, n);
    GramAgrees(l, Factor(a, sqrt), j, i, j);
    ResidualIsGram(a, sqrt, i, j, j);
    assert Residual(a, sqrt, i, j, j) == l(i, j) * l(j, j);
    if i == j {
      PositiveSquaresAgree(sqrt(Residual(a, sqrt, i, i, i)), l(i, i));
    } else {
      FactorIsEntry(l, a, sqrt, n, j, j);
      QuotientOfProduct(l(i, j), l(j, j));
    }
  }

  lemma {:induction false} GramAgrees(l: Mat, m: Mat, k: nat, i: int, j: int)
    requires forall c :: 0 <= c < k ==> l(i, c) == m(i, c) && l(j, c) == m(j, c)
    ensures Gram(l, k, i, j) == Gram(m, k, i, j)
  {
    if k != 0 { GramAgrees(l, m, k - 1, i, j); }
  }

  lemma FactorableIffPivots(a: Mat, sqrt: real -> real, n: nat)
    requires IsSqrt(sqrt)
    ensures Factorable(a, n) <==> PivotsPositive(a, sqrt, n)
  {
    if PivotsPositive(a, sqrt, n) {
      PivotsGiveFactor(a, sqrt, n);
    }
    if Factorable(a, n) {
      var l: Mat :| IsFactor(l, a, n);
      forall i | 0 <= i < n ensures Residual(a, sqrt, i, i, i) > 0.0 {
        FactorIsEntry(l, a, sqrt, n, i, i);
      }
    }
  }

  /** The factor is unique. */
  lemma FactorUnique(l: Mat, m: Mat, a: Mat, sqrt: real -> real, n: nat, i: int, j: int)
    requires IsSqrt(sqrt) && IsFactor(l, a, n) && IsFactor(m, a, n)
    requires 0 <= i < n && 0 <= j < n
    ensures l(i, j) == m(i, j)
  {
    if j <= i {
      FactorIsEntry(l, a, sqrt, n, i, j);
      FactorIsEntry(m, a, sqrt, n, i, j);
    }
  }

  // ---- the in-place factorization ----

  /** Rows above `row`, and the first `col` entries of that row, hold the factor;
      everything else still holds a. */
  ghost predicate Progress(s: seq<real>, n: nat, a: Mat, sqrt: real -> real, row: int, col: int) {
    |s| == n * n &&
    forall i, j :: 0 <= i < n && 0 <= j < n ==>
      At(s, n, i, j) == if i < row || (i == row && j < col) then Entry(a, sqrt, i, j) else a(i, j)
  }

  lemma ProgressStep(s: seq<real>, n: nat, a: Mat, sqrt: real -> real, row: int, col: int, p: int, x: real)
    requires Progress(s, n, a, sqrt, row, col) && 0 <= row < n && 0 <= col < n
    requires p == row * n + col && 0 <= p < |s| && x == Entry(a, sqrt, row, col)
    ensures Progress(s[p := x], n, a, sqrt, row, col + 1)
  {
    hide Entry;
    forall i, j | 0 <= i < n && 0 <= j < n
      ensures At(s[p := x], n, i, j)
           == if i < row || (i == row && j < col + 1) then Entry(a, sqrt, i, j) else a(i, j)
    {
      AtUpdate(s, n, row, col, p, x, i, j);
    }
  }

  /** One residual a(row, col) - sum of products, read from the half-written matrix. */
  method ResidualAt(m: array<real>, n: nat, ghost a: Mat, ghost sqrt: real -> real, row: int, col: int)
    returns (sum: real)
    requires 0 <= col <= row < n && Progress(m[..], n, a, sqrt, row, col)
    ensures sum == Residual(a, sqrt, row, col, col)
  {
    hide Entry;
    IndexInRange(n, row, col);
    assert At(m[..], n, row, col) == a(row, col);
    sum := m[row * n + col];
    for k := 0 to col
      invariant sum == Residual(a, sqrt, row, col, k)
    {
      IndexInRange(n, row, k);
      IndexInRange(n, col, k);
      assert At(m[..], n, row, k) == Entry(a, sqrt, row, k);
      assert At(m[..], n, col, k) == Entry(a, sqrt, col, k);
      sum := sum - m[row * n + k] * m[col * n + k];
    }
  }

  method WriteCell(m: array<real>, n: nat, ghost a: Mat, ghost sqrt: real -> real, row: int, col: int, x: real)
    requires 0 <= row < n && 0 <= col < n && Progress(m[..], n, a, sqrt, row, col)
    requires x == Entry(a, sqrt, row, col)
    modifies m
    ensures Progress(m[..], n, a, sqrt, row, col + 1)
  {
    IndexInRange(n, row, col);
    ghost var before := m[..];
    m[row * n + col] := x;
    assert m[..] == before[row * n + col := x];
    ProgressStep(before, n, a, sqrt, row, col, row * n + col, x);
  }

  /** Compute and store factor entry (row, col); fails only on a nonpositive pivot. */
  method FactorCell(m: array<real>, n: nat, ghost a: Mat, sqrt: real -> real, row: int, col: int)
    returns (ok: bool)
    requires IsSqrt(sqrt) && 0 <= col <= row < n
    requires Progress(m[..], n, a, sqrt, row, col) && PivotsPositive(a, sqrt, row)
    modifies m
    ensures ok ==> Progress(m[..], n, a, sqrt, row, col + 1)
    ensures row == col ==> (ok <==> Residual(a, sqrt, row, row, row) > 0.0)
    ensures row != col ==> ok
  {
    var sum := ResidualAt(m, n, a, sqrt, row, col);
    var x: real;
    if row == col {
      if !(sum > 0.0) {
        return false;
      }
      x := sqrt(sum);
    } else {
      IndexInRange(n, col, col);
      assert At(m[..], n, col, col) == Entry(a, sqrt, col, col);
      var diagonal := m[col * n + col];
      EntryTimesDiagonal(a, sqrt, row, col);
      if !(diagonal > 0.0) {
        return false;
      }
      x := sum / diagonal;
    }
    WriteCell(m, n, a, sqrt, row, col, x);
    return true;
  }

  /** Factor in place. Succeeds exactly when a factor exists, and then leaves it. */
  method DecomposeLower(m: array<real>, n: nat, sqrt: real -> real) returns (ok: bool)
    requires IsSqrt(sqrt)
    modifies m
    ensures m.Length != n * n ==> !ok && m[..] == old(m[..])
    ensures m.Length == n * n ==> (ok <==> Factorable(Grid(old(m[..]), n), n))
    ensures ok ==> IsFactor(Grid(m[..], n), Grid(old(m[..]), n), n)
  {
    if m.Length != n * n {
      return false;
    }
    ghost var a := Grid(m[..], n);
    FactorableIffPivots(a, sqrt, n);
    for row := 0 to n
      invariant Progress(m[..], n, a, sqrt, row, 0)
      invariant PivotsPositive(a, sqrt, row)
    {
      for col := 0 to row + 1
        invariant Progress(m[..], n, a, sqrt, row, col)
        invariant col > row ==> Residual(a, sqrt, row, row, row) > 0.0
      {
        var cellOk := FactorCell(m, n, a, sqrt, row, col);
        if !cellOk {
          return false;
        }
      }
      for col := row + 1 to n
        invariant Progress(m[..], n, a, sqrt, row, col)
      {
        WriteCell(m, n, a, sqrt, row, col, 0.0);
      }
      assert Progress(m[..], n, a, sqrt, row + 1, 0);
    }
    PivotsGiveFactor(a, sqrt, n);
    FactorAgrees(Factor(a, sqrt), Grid(m[..], n), a, n);
    return true;
  }

  lemma FactorAgrees(l: Mat, m: Mat, a: Mat, n: nat)
    requires IsFactor(l, a, n)
    requires forall i, j :: 0 <= i < n && 0 <= j < n ==> l(i, j) == m(i, j)
    ensures IsFactor(m, a, n)
  {
    forall i, j | 0 <= j <= i < n ensures Gram(m, n, i, j) == a(i, j) {
      GramAgrees(l, m, n, i, j);
    }
  }
}
