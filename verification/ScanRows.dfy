/** Undoing the scan direction of transmitted rows: GRIB2 Flag Table 3.4 lets a message
    send its rows east to west, or alternate the direction from row to row. */
module ScanRows {
  import opened LongitudeGrid

  predicate Flag(scanMode: nat, bit: nat)
    requires bit > 0
  {
    scanMode / bit % 2 == 1
  }

  /** Row r arrives east to west. */
  predicate RowNegative(scanMode: nat, r: nat) {
    Flag(scanMode, 0x80) != (Flag(scanMode, 0x10) && r % 2 == 1)
  }

  /** The flags of Flag Table 3.4 in a scan mode: with alternating rows every second one
      runs against the first, without them all run alike. */
  lemma ScanDirections(iNegative: bool, jPositive: bool, consecutiveJ: bool, alternating: bool, rest: nat, r: nat)
    requires rest < 16
    ensures var mode := (if iNegative then 128 else 0) + (if jPositive then 64 else 0)
                      + (if consecutiveJ then 32 else 0) + (if alternating then 16 else 0) + rest;
      && Flag(mode, 0x20) == consecutiveJ
      && (RowNegative(mode, r) <==> if alternating then iNegative == (r % 2 == 0) else iNegative)
  {
  }

  function Reversed(row: seq<real>): (r: seq<real>)
    ensures |r| == |row| && forall c :: 0 <= c < |row| ==> r[c] == row[|row| - 1 - c]
  {
    seq(|row|, c requires 0 <= c < |row| => row[|row| - 1 - c])
  }

  lemma ReversedTwice(row: seq<real>)
    ensures Reversed(Reversed(row)) == row
  {
  }

  /** The stream sends the rows of the grid in the directions of the scan mode. */
  ghost predicate Transmits(stream: seq<real>, grid: seq<real>, nx: nat, ny: nat, scanMode: nat) {
    && |stream| == |grid| == ny * nx
    && forall r :: 0 <= r < ny ==> RowTransmits(stream, grid, nx, ny, scanMode, r)
  }

  ghost predicate RowTransmits(stream: seq<real>, grid: seq<real>, nx: nat, ny: nat, scanMode: nat, r: nat)
    requires |stream| == |grid| == ny * nx && r < ny
  {
    var row := RowOf(grid, nx, ny, r);
    RowOf(stream, nx, ny, r) == if RowNegative(scanMode, r) then Reversed(row) else row
  }

  lemma RowDivision(nx: nat, ny: nat, k: nat)
    requires k < ny * nx
    ensures nx > 0 && k / nx < ny && k / nx * nx <= k < k / nx * nx + nx
  {
    assert nx > 0;
    var q := k / nx;
    assert k == q * nx + k % nx;
    Bounded(q, ny, nx);
  }

  lemma Bounded(q: nat, ny: nat, nx: nat)
    ensures q * nx < ny * nx ==> q < ny
  {
    if q >= ny { assert (q - ny) * nx >= 0; }
  }

  lemma RowEntry(s: seq<real>, nx: nat, ny: nat, r: nat, base: nat, k: nat)
    requires |s| == ny * nx && r < ny && base == r * nx && base <= k < base + nx
    ensures k < |s| && RowOf(s, nx, ny, r)[k - base] == s[k]
  {
    RowFits(nx, ny, r);
    assert RowOf(s, nx, ny, r) == s[base..base + nx];
  }

  /** Grids with the same rows are the same. */
  lemma RowsDecide(s: seq<real>, t: seq<real>, nx: nat, ny: nat)
    requires |s| == |t| == ny * nx && forall r :: 0 <= r < ny ==> RowOf(s, nx, ny, r) == RowOf(t, nx, ny, r)
    ensures s == t
  {
    hide RowOf;
    forall k | 0 <= k < |s| ensures s[k] == t[k] {
      RowDivision(nx, ny, k);
      RowEntry(s, nx, ny, k / nx, k / nx * nx, k);
      RowEntry(t, nx, ny, k / nx, k / nx * nx, k);
    }
  }

  /** A stream transmits exactly one grid. */
  lemma TransmissionUnique(stream: seq<real>, g: seq<real>, h: seq<real>, nx: nat, ny: nat, scanMode: nat)
    requires Transmits(stream, g, nx, ny, scanMode) && Transmits(stream, h, nx, ny, scanMode)
    ensures g == h
  {
    forall r | 0 <= r < ny ensures RowOf(g, nx, ny, r) == RowOf(h, nx, ny, r) {
      assert RowTransmits(stream, g, nx, ny, scanMode, r) && RowTransmits(stream, h, nx, ny, scanMode, r);
      ReversedTwice(RowOf(g, nx, ny, r));
      ReversedTwice(RowOf(h, nx, ny, r));
    }
    RowsDecide(g, h, nx, ny);
  }

  /** Value by value: a row that arrives east to west is read from its end. */
  lemma TransmitsValues(stream: seq<real>, grid: seq<real>, nx: nat, ny: nat, scanMode: nat, r: nat, c: nat)
    requires Transmits(stream, grid, nx, ny, scanMode) && r < ny && c < nx
    ensures r * nx + c < |stream| && r * nx + (nx - 1 - c) < |grid|
    ensures stream[r * nx + c] == grid[if RowNegative(scanMode, r) then r * nx + (nx - 1 - c) else r * nx + c]
  {
    hide RowOf, RowNegative;
    assert RowTransmits(stream, grid, nx, ny, scanMode, r);
    RowEntry(stream, nx, ny, r, r * nx, r * nx + c);
    RowEntry(grid, nx, ny, r, r * nx, r * nx + c);
    RowEntry(grid, nx, ny, r, r * nx, r * nx + (nx - 1 - c));
  }

  lemma SameTransmits(s: seq<real>, nx: nat, ny: nat, scanMode: nat)
    requires |s| == ny * nx && !Flag(scanMode, 0x80) && !Flag(scanMode, 0x10)
    ensures Transmits(s, s, nx, ny, scanMode)
  {
  }

  /** Recover the grid from the transmitted values, in place. Streams of the wrong size
      and streams of columns stay as they are. */
  method NormalizeAlternatingScan(values: array<real>, nx: nat, ny: nat, scanMode: nat)
    modifies values
    ensures values.Length != ny * nx || Flag(scanMode, 0x20) ==> values[..] == old(values[..])
    ensures values.Length == ny * nx && !Flag(scanMode, 0x20) ==>
            Transmits(old(values[..]), values[..], nx, ny, scanMode)
  {
    hide Flag;
    if nx == 0 || ny == 0 || values.Length != nx * ny {
      assert values.Length == ny * nx ==> values.Length == 0;
      EmptyTransmits(values[..], nx, ny, scanMode);
      return;
    }
    if Flag(scanMode, 0x20) {
      return;
    }
    if !Flag(scanMode, 0x80) && !Flag(scanMode, 0x10) {
      SameTransmits(values[..], nx, ny, scanMode);
      return;
    }
    ReverseRows(values, nx, ny, scanMode);
  }

  lemma EmptyTransmits(s: seq<real>, nx: nat, ny: nat, scanMode: nat)
    requires nx == 0 || ny == 0 || |s| != nx * ny
    ensures |s| == ny * nx ==> Transmits(s, s, nx, ny, scanMode)
  {
    if |s| == ny * nx {
      forall r | 0 <= r < ny ensures RowTransmits(s, s, nx, ny, scanMode, r) {
        assert nx == 0 && RowOf(s, nx, ny, r) == [];
      }
    }
  }

  method ReverseRows(values: array<real>, nx: nat, ny: nat, scanMode: nat)
    requires values.Length == ny * nx
    modifies values
    ensures Transmits(old(values[..]), values[..], nx, ny, scanMode)
  {
    hide RowOf, RowNegative;
    ghost var before := values[..];
    for row := 0 to ny
      invariant forall r :: 0 <= r < row ==> RowTransmits(before, values[..], nx, ny, scanMode, r)
      invariant forall r :: row <= r < ny ==> RowOf(values[..], nx, ny, r) == RowOf(before, nx, ny, r)
    {
      ghost var was := values[..];
      if RowNegative(scanMode, row) {
        var line := ReadRow(values, nx, ny, row);
        ReplaceRow(values, nx, ny, row, Reversed(line));
        ReversedTwice(line);
        assert OnlyRow(values[..], was, nx, ny, row, Reversed(line));
        forall r | 0 <= r < row ensures RowTransmits(before, values[..], nx, ny, scanMode, r) {
          assert RowTransmits(before, was, nx, ny, scanMode, r);
        }
      }
      assert RowTransmits(before, values[..], nx, ny, scanMode, row);
    }
  }
}
