/** Longitude normalization of a whole grid in place, its replay on field values,
    and the cache's test for a canonical grid. */
module LongitudeGrid {
  import opened LongitudeRows

  lemma RowFits(nx: nat, ny: nat, r: nat)
    requires r < ny
    ensures 0 <= r * nx <= r * nx + nx <= ny * nx
  {
    assert (r + 1) * nx <= ny * nx;
  }

  /** Row r of a grid stored row by row. */
  ghost function RowOf<T>(s: seq<T>, nx: nat, ny: nat, r: nat): (row: seq<T>)
    requires |s| == ny * nx && r < ny
    ensures |row| == nx
  {
    RowFits(nx, ny, r);
    s[r * nx..r * nx + nx]
  }

  lemma SpliceSlice(s: seq<real>, start: nat, row: seq<real>, lo: nat, hi: nat)
    requires start + |row| <= |s| && lo <= hi <= |s|
    ensures var t := s[..start] + row + s[start + |row|..];
            && |t| == |s| && t[start..start + |row|] == row
            && (hi <= start || start + |row| <= lo ==> t[lo..hi] == s[lo..hi])
  {
  }

  lemma RowsApart(nx: nat, q: nat, r: nat)
    ensures q < r ==> q * nx + nx <= r * nx
  {
    if q < r { assert (q + 1) * nx <= r * nx; }
  }

  lemma SpliceRow(s: seq<real>, nx: nat, ny: nat, r: nat, start: nat, row: seq<real>, q: nat)
    requires |s| == ny * nx && r < ny && q < ny && |row| == nx && start == r * nx && start + nx <= |s|
    ensures var t := s[..start] + row + s[start + nx..];
            |t| == |s| && RowOf(t, nx, ny, q) == if q == r then row else RowOf(s, nx, ny, q)
  {
    RowFits(nx, ny, q);
    RowsApart(nx, q, r);
    RowsApart(nx, r, q);
    var lo := q * nx;
    SpliceSlice(s, start, row, lo, lo + nx);
    var t := s[..start] + row + s[start + nx..];
    assert RowOf(t, nx, ny, q) == t[lo..lo + nx];
    assert RowOf(s, nx, ny, q) == s[lo..lo + nx];
  }

  /** Overwrite a[start ..] with row. */
  method WriteRow(a: array<real>, start: nat, row: seq<real>)
    requires start + |row| <= a.Length
    modifies a
    ensures a[..] == old(a[..])[..start] + row + old(a[..])[start + |row|..]
  {
    ghost var before := a[..];
    for i := 0 to |row|
      invariant forall k :: 0 <= k < a.Length ==>
        a[k] == if start <= k < start + i then row[k - start] else before[k]
    {
      a[start + i] := row[i];
    }
  }

  /** Row r of a now reads row; all other rows are as before. */
  ghost predicate OnlyRow(now: seq<real>, before: seq<real>, nx: nat, ny: nat, r: nat, row: seq<real>)
    requires r < ny
  {
    && |now| == |before| == ny * nx && |row| == nx
    && forall q :: 0 <= q < ny ==> RowOf(now, nx, ny, q) == if q == r then row else RowOf(before, nx, ny, q)
  }

  method ReplaceRow(a: array<real>, nx: nat, ny: nat, r: nat, row: seq<real>)
    requires a.Length == ny * nx && r < ny && |row| == nx
    modifies a
    ensures OnlyRow(a[..], old(a[..]), nx, ny, r, row)
  {
    RowFits(nx, ny, r);
    ghost var before := a[..];
    WriteRow(a, r * nx, row);
    forall q | 0 <= q < ny
      ensures RowOf(a[..], nx, ny, q) == if q == r then row else RowOf(before, nx, ny, q)
    {
      SpliceRow(before, nx, ny, r, r * nx, row, q);
    }
  }

  method ReadRow(a: array<real>, nx: nat, ny: nat, r: nat) returns (row: seq<real>)
    requires a.Length == ny * nx && r < ny
    ensures row == RowOf(a[..], nx, ny, r)
  {
    RowFits(nx, ny, r);
    row := a[r * nx..r * nx + nx];
    assert row == a[..][r * nx..r * nx + nx];
  }

  /** Row r holds the rotation of the corresponding original row by its wrap. */
  ghost predicate RowRotated(now: seq<real>, before: seq<real>, nx: nat, ny: nat, r: nat, k: nat)
    requires |now| == |before| == ny * nx && r < ny
  {
    k <= nx && RowOf(now, nx, ny, r) == RotateLeft(RowOf(before, nx, ny, r), k)
  }

  /** Fold and rotate every row of the coordinate grid, reporting the rotations. */
  method NormalizeAndRotateRows(lat: array<real>, lon: array<real>, nx: nat, ny: nat) returns (wraps: seq<nat>)
    requires lat != lon && lat.Length == ny * nx && lon.Length == ny * nx
    modifies lat, lon
    ensures |wraps| == ny
    ensures forall r :: 0 <= r < ny ==> wraps[r] == WrapAmount(Normalized(RowOf(old(lon[..]), nx, ny, r)))
    ensures forall r :: 0 <= r < ny ==> RowOf(lon[..], nx, ny, r) == Rotated(RowOf(old(lon[..]), nx, ny, r))
    ensures forall r :: 0 <= r < ny ==> RowRotated(lat[..], old(lat[..]), nx, ny, r, wraps[r])
  {
    hide WrapAmount, Normalized, RowOf;
    ghost var lat0, lon0 := lat[..], lon[..];
    wraps := [];
    for row := 0 to ny
      invariant |wraps| == row
      invariant forall r :: 0 <= r < row ==> wraps[r] == WrapAmount(Normalized(RowOf(lon0, nx, ny, r)))
      invariant forall r :: 0 <= r < ny ==>
        RowOf(lon[..], nx, ny, r) == if r < row then Rotated(RowOf(lon0, nx, ny, r)) else RowOf(lon0, nx, ny, r)
      invariant forall r :: 0 <= r < row ==> RowRotated(lat[..], lat0, nx, ny, r, wraps[r])
      invariant forall r :: row <= r < ny ==> RowOf(lat[..], nx, ny, r) == RowOf(lat0, nx, ny, r)
    {
      var latRow := ReadRow(lat, nx, ny, row);
      var lonRow := ReadRow(lon, nx, ny, row);
      lonRow := Normalized(lonRow);
      var k := WrapAmount(lonRow);
      ghost var latBefore, lonBefore := lat[..], lon[..];
      ReplaceRow(lat, nx, ny, row, RotateLeft(latRow, k));
      ReplaceRow(lon, nx, ny, row, RotateLeft(lonRow, k));
      assert OnlyRow(lat[..], latBefore, nx, ny, row, RotateLeft(latRow, k));
      wraps := wraps + [k];
    }
  }

  /** Replay the reported rotations on field values. */
  method RotateRowsLeft(values: array<real>, nx: nat, wraps: seq<nat>)
    requires values.Length == |wraps| * nx && forall r :: 0 <= r < |wraps| ==> wraps[r] <= nx
    modifies values
    ensures forall r :: 0 <= r < |wraps| ==> RowRotated(values[..], old(values[..]), nx, |wraps|, r, wraps[r])
  {
    hide RowOf;
    ghost var before := values[..];
    var ny := |wraps|;
    for row := 0 to ny
      invariant forall r :: 0 <= r < row ==> RowRotated(values[..], before, nx, ny, r, wraps[r])
      invariant forall r :: row <= r < ny ==> RowOf(values[..], nx, ny, r) == RowOf(before, nx, ny, r)
    {
      if wraps[row] != 0 {
        var current := ReadRow(values, nx, ny, row);
        ghost var was := values[..];
        ReplaceRow(values, nx, ny, row, RotateLeft(current, wraps[row]));
        assert OnlyRow(values[..], was, nx, ny, row, RotateLeft(current, wraps[row]));
      } else {
        NoRotation(RowOf(values[..], nx, ny, row));
      }
    }
  }

  lemma NoRotation(row: seq<real>)
    ensures RotateLeft(row, 0) == row
  {
  }

  /** Latitude, longitude and value that belonged together still do: at every cell
      all three come from one and the same original column of that row. */
  lemma TriplesStayTogether(lat0: seq<real>, lon0: seq<real>, values0: seq<real>,
                            lat: seq<real>, lon: seq<real>, values: seq<real>,
                            nx: nat, ny: nat, r: nat, c: nat, k: nat)
    requires |lat0| == |lon0| == |values0| == |lat| == |lon| == |values| == ny * nx && r < ny && c < nx
    requires k == WrapAmount(Normalized(RowOf(lon0, nx, ny, r)))
    requires RowRotated(lat, lat0, nx, ny, r, k) && RowRotated(values, values0, nx, ny, r, k)
    requires RowOf(lon, nx, ny, r) == Rotated(RowOf(lon0, nx, ny, r))
    ensures var from := (c + k) % nx;
            && RowOf(lat, nx, ny, r)[c] == RowOf(lat0, nx, ny, r)[from]
            && RowOf(lon, nx, ny, r)[c] == NormalizeLongitude(RowOf(lon0, nx, ny, r)[from])
            && RowOf(values, nx, ny, r)[c] == RowOf(values0, nx, ny, r)[from]
  {
    hide RowOf, WrapAmount;
    RotatedFrom(RowOf(lat0, nx, ny, r), k, c);
    RotatedFrom(RowOf(values0, nx, ny, r), k, c);
    RotatedFrom(Normalized(RowOf(lon0, nx, ny, r)), k, c);
  }

  // ---- the canonical-grid test ----

  ghost predicate CanonicalGrid(nx: nat, ny: nat, lat: seq<real>, lon: seq<real>) {
    && nx > 0 && ny > 0 && |lat| == ny * nx && |lon| == ny * nx
    && forall r :: 0 <= r < ny ==> CanonicalRow(RowOf(lon, nx, ny, r))
  }

  method RowIsCanonical(row: seq<real>) returns (ok: bool)
    ensures ok <==> CanonicalRow(row)
  {
    for i := 0 to |row|
      invariant forall k :: 0 <= k < i ==> -180.0 <= row[k] <= 180.0
    {
      if row[i] < -180.0 || row[i] > 180.0 {
        return false;
      }
    }
    var i := 1;
    while i < |row|
      invariant 1 <= i
      invariant forall k, j :: 0 <= k && j == k + 1 < i && j < |row| ==> row[k] <= row[j]
    {
      if row[i] < row[i - 1] {
        assert !(row[i - 1] <= row[i]);
        return false;
      }
      i := i + 1;
    }
    StepsAscend(row);
    return true;
  }

  /** The test the cache applies to a stored grid. */
  method GridIsCanonical(nx: nat, ny: nat, lat: seq<real>, lon: seq<real>) returns (ok: bool)
    ensures ok <==> CanonicalGrid(nx, ny, lat, lon)
  {
    hide CanonicalRow;
    if nx == 0 || ny == 0 || |lat| != ny * nx || |lon| != ny * nx {
      return false;
    }
    for row := 0 to ny
      invariant forall r :: 0 <= r < row ==> CanonicalRow(RowOf(lon, nx, ny, r))
    {
      RowFits(nx, ny, row);
      var rowOk := RowIsCanonical(lon[row * nx..row * nx + nx]);
      if !rowOk {
        assert !CanonicalRow(RowOf(lon, nx, ny, row));
        return false;
      }
    }
    return true;
  }

  /** A grid of provider rows passes the test after normalization exactly when every
      row folds cleanly; rows spanning at most 360 degrees always do. */
  lemma NormalizedGridCanonical(nx: nat, ny: nat, lat: seq<real>, lon0: seq<real>, lon: seq<real>)
    requires nx > 0 && ny > 0 && |lat| == |lon0| == |lon| == ny * nx
    requires forall r :: 0 <= r < ny ==> ProviderRow(RowOf(lon0, nx, ny, r))
    requires forall r :: 0 <= r < ny ==> RowOf(lon, nx, ny, r) == Rotated(RowOf(lon0, nx, ny, r))
    ensures CanonicalGrid(nx, ny, lat, lon) <==> forall r :: 0 <= r < ny ==> FoldsCleanly(RowOf(lon0, nx, ny, r))
    ensures (forall r :: 0 <= r < ny ==> RowOf(lon0, nx, ny, r)[nx - 1] - RowOf(lon0, nx, ny, r)[0] <= 360.0) ==>
              CanonicalGrid(nx, ny, lat, lon)
  {
    hide RowOf, Rotated, CanonicalRow, ProviderRow;
    forall r | 0 <= r < ny
      ensures CanonicalRow(RowOf(lon, nx, ny, r)) <==> FoldsCleanly(RowOf(lon0, nx, ny, r))
    {
      RotatedCanonical(RowOf(lon0, nx, ny, r));
    }
  }
}
