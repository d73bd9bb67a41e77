/** Longitude normalization of one grid row: fold into [-180, 180], then rotate the
    row so that it ascends again. */
module LongitudeRows {
  import opened Basics

  function NormalizeLongitude(lon: real): real { if lon > 180.0 then lon - 360.0 else lon }

  function Normalized(row: seq<real>): (r: seq<real>)
    ensures |r| == |row| && forall i :: 0 <= i < |row| ==> r[i] == NormalizeLongitude(row[i])
  {
    seq(|row|, i requires 0 <= i < |row| => NormalizeLongitude(row[i]))
  }

  function RotateLeft<T>(row: seq<T>, k: nat): (r: seq<T>)
    requires k <= |row|
    ensures |r| == |row|
  {
    row[k..] + row[..k]
  }

  /** The value at column c comes from column (c + k) mod n. */
  lemma RotatedFrom<T>(row: seq<T>, k: nat, c: nat)
    requires k <= |row| && c < |row|
    ensures RotateLeft(row, k)[c] == row[(c + k) % |row|]
  {
    ModOnce(c + k, |row|);
  }

  /** Distinct columns come from distinct columns: a rotation loses nothing. */
  lemma RotationInjective(n: nat, k: nat, c: nat, d: nat)
    requires k <= n && c < d < n
    ensures (c + k) % n != (d + k) % n
  {
    ModOnce(c + k, n);
    ModOnce(d + k, n);
  }

  lemma ModOnce(x: nat, n: nat)
    requires x < 2 * n
    ensures x % n == if x < n then x else x - n
  {
    if x >= n { assert x == n + (x - n); }
  }

  ghost predicate Ascending(row: seq<real>) {
    forall i, j :: 0 <= i < j < |row| ==> row[i] <= row[j]
  }

  lemma {:induction false} StepsAscend(row: seq<real>)
    requires forall i, j :: 0 <= i && j == i + 1 < |row| ==> row[i] <= row[j]
    ensures Ascending(row)
  {
    if |row| > 0 {
      var n := |row| - 1;
      StepsAscend(row[..n]);
      forall i, j | 0 <= i < j < |row| ensures row[i] <= row[j] {
        if j < n {
          assert row[..n][i] <= row[..n][j];
        } else if i < n - 1 {
          var before := n - 1;
          assert row[..n][i] <= row[..n][before];
          assert row[before] <= row[n];
        }
      }
    }
  }

  /** Index of the first value below its predecessor, searching from i. */
  function WrapFrom(row: seq<real>, i: nat): (at: Option<nat>)
    requires 0 < i
    ensures at.Some? ==> i <= at.value < |row| && row[at.value] < row[at.value - 1]
    ensures forall k :: i <= k < (if at.Some? then at.value else |row|) ==> row[k - 1] <= row[k]
    decreases |row| - i
  {
    if i >= |row| then None else if row[i] < row[i - 1] then Some(i) else WrapFrom(row, i + 1)
  }

  function FirstWrap(row: seq<real>): Option<nat> { WrapFrom(row, 1) }

  /** The rotate-left amount of a row; zero leaves it untouched. */
  function WrapAmount(row: seq<real>): (k: nat)
    ensures k <= |row|
  {
    var at := FirstWrap(row);
    if at.Some? then at.value else 0
  }

  /** A row after folding and rotating. */
  function Rotated(row: seq<real>): seq<real> { RotateLeft(Normalized(row), WrapAmount(Normalized(row))) }

  ghost predicate CanonicalRow(row: seq<real>) {
    Ascending(row) && forall i :: 0 <= i < |row| ==> -180.0 <= row[i] <= 180.0
  }

  /** What a provider row may look like: ascending, within [-180, 540]. */
  ghost predicate ProviderRow(row: seq<real>) {
    Ascending(row) && forall i :: 0 <= i < |row| ==> -180.0 <= row[i] <= 540.0
  }

  /** How many leading longitudes are at most 180. */
  function SplitPoint(row: seq<real>): (p: nat)
    ensures p <= |row| && (forall i :: 0 <= i < p ==> row[i] <= 180.0) && (p < |row| ==> row[p] > 180.0)
  {
    if row == [] || row[0] > 180.0 then 0 else 1 + SplitPoint(row[1..])
  }

  /** The row spans at most 360 degrees, or leaps over a full turn at the fold. */
  ghost predicate FoldsCleanly(row: seq<real>) {
    || row == [] || row[|row| - 1] - row[0] <= 360.0
    || (var p := SplitPoint(row); 0 < p < |row| && row[p] - row[p - 1] >= 360.0)
  }

  lemma FoldedShape(row: seq<real>, i: nat)
    requires ProviderRow(row) && i < |row|
    ensures Normalized(row)[i] == if i < SplitPoint(row) then row[i] else row[i] - 360.0
  {
    hide Normalized, SplitPoint;
    var p := SplitPoint(row);
    if i > p { assert row[p] <= row[i]; }
    assert Normalized(row)[i] == NormalizeLongitude(row[i]);
  }

  /** The fold makes the row descend. */
  ghost predicate Descends(row: seq<real>) {
    var p := SplitPoint(row);
    0 < p < |row| && row[p] - 360.0 < row[p - 1]
  }

  /** Before and after the fold the row still ascends, so the only possible descent
      is at the fold. */
  lemma WrapIsAtFold(row: seq<real>)
    requires ProviderRow(row)
    ensures FirstWrap(Normalized(row)) == if Descends(row) then Some(SplitPoint(row)) else None
  {
    var p, n, at := SplitPoint(row), Normalized(row), FirstWrap(Normalized(row));
    forall i | 0 <= i < |row| ensures n[i] == if i < p then row[i] else row[i] - 360.0 { FoldedShape(row, i); }
    if at.Some? {
      var i := at.value;
      assert row[i - 1] <= row[i];
      assert i == p;
    } else if 0 < p < |row| {
      assert n[p - 1] <= n[p];
    }
  }

  /** Column i of the result: where the row descends it becomes the folded part
      followed by the rest, otherwise it stays in place. */
  ghost function ShapedAt(row: seq<real>, i: nat): real
    requires i < |row|
  {
    var p, n := SplitPoint(row), |row|;
    if Descends(row) then if i < n - p then row[p + i] - 360.0 else row[i - (n - p)]
    else if i < p then row[i] else row[i] - 360.0
  }

  lemma RotatedShape(row: seq<real>, i: nat)
    requires ProviderRow(row) && i < |row|
    ensures Rotated(row)[i] == ShapedAt(row, i)
  {
    hide SplitPoint, Ascending, FirstWrap;
    var p, n, k := SplitPoint(row), |row|, WrapAmount(Normalized(row));
    WrapIsAtFold(row);
    var from := if i < n - k then k + i else i - (n - k);
    assert Rotated(row)[i] == Normalized(row)[from];
    FoldedShape(row, from);
  }

  lemma ShapedInRange(row: seq<real>, i: nat)
    requires ProviderRow(row) && i < |row|
    ensures -180.0 <= ShapedAt(row, i) <= 180.0
  {
    var p, n := SplitPoint(row), |row|;
    var from := if Descends(row) then if i < n - p then p + i else i - (n - p) else i;
    if p < from { assert row[p] <= row[from]; }
  }

  lemma ShapedOrder(row: seq<real>, i: nat, j: nat)
    requires ProviderRow(row) && i < j < |row|
    requires Descends(row) ==> row[|row| - 1] - row[0] <= 360.0
    ensures ShapedAt(row, i) <= ShapedAt(row, j)
  {
    var p, n := SplitPoint(row), |row|;
    if Descends(row) {
      if j < n - p {
        assert row[p + i] <= row[p + j];
      } else if i >= n - p {
        assert row[i - (n - p)] <= row[j - (n - p)];
      } else {
        Below(row, p + i, n - 1);
        Below(row, 0, j - (n - p));
      }
    } else {
      Below(row, i, j);
      if i < p <= j {
        Below(row, i, p - 1);
        Below(row, p, j);
      }
    }
  }

  lemma Below(row: seq<real>, i: nat, j: nat)
    requires Ascending(row) && i <= j < |row|
    ensures row[i] <= row[j]
  {
  }

  lemma UnfoldedSpan(row: seq<real>)
    requires ProviderRow(row) && row != [] && (SplitPoint(row) == |row| || SplitPoint(row) == 0)
    ensures row[|row| - 1] - row[0] <= 360.0
  {
  }

  /** A row that descends at the fold and spans too much stays out of order. */
  lemma ShapedSeam(row: seq<real>)
    requires ProviderRow(row) && Descends(row) && row[|row| - 1] - row[0] > 360.0
    ensures var seam := |row| - SplitPoint(row); 0 < seam < |row| && ShapedAt(row, seam - 1) > ShapedAt(row, seam)
  {
    hide SplitPoint, Ascending;
    var p, n := SplitPoint(row), |row|;
    assert ShapedAt(row, n - p - 1) == row[n - 1] - 360.0;
    assert ShapedAt(row, n - p) == row[0];
  }

  /** A provider row becomes canonical exactly when it folds cleanly. */
  lemma RotatedCanonical(row: seq<real>)
    requires ProviderRow(row)
    ensures CanonicalRow(Rotated(row)) <==> FoldsCleanly(row)
  {
    hide ShapedAt, Rotated, SplitPoint;
    var p, n, out := SplitPoint(row), |row|, Rotated(row);
    RotatedLength(row);
    forall i | 0 <= i < n ensures -180.0 <= out[i] <= 180.0 {
      RotatedShape(row, i);
      ShapedInRange(row, i);
    }
    if FoldsCleanly(row) {
      forall i, j | 0 <= i < j < n ensures out[i] <= out[j] {
        RotatedShape(row, i);
        RotatedShape(row, j);
        ShapedOrder(row, i, j);
      }
    } else {
      if p == n || p == 0 { UnfoldedSpan(row); }
      ShapedSeam(row);
      var seam := n - p;
      RotatedShape(row, seam - 1);
      RotatedShape(row, seam);
      assert !(out[seam - 1] <= out[seam]);
    }
  }

  lemma RotatedLength(row: seq<real>)
    ensures |Rotated(row)| == |row|
  {
  }
}
