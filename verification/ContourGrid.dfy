/** Grid cells: the row-major iterator and what it visits. */
module ContourGrid {
  import opened Basics

  datatype GridShape = GridShape(nx: nat, ny: nat) {
    ghost predicate Valid() { nx >= 2 && ny >= 2 }
    predicate ContainsNode(column: nat, row: nat) { column < nx && row < ny }
    predicate ContainsCell(column: int, row: int) { 0 <= column && column + 1 < nx && 0 <= row && row + 1 < ny }
    function NodeIndex(column: nat, row: nat): nat { row * nx + column }
  }

  datatype CellIndex = CellIndex(column: int, row: int)

  /** The cells from (column, row) to the end, in row-major order. */
  ghost function CellsFrom(shape: GridShape, column: nat, row: nat): seq<CellIndex>
    requires shape.Valid() && column < shape.nx - 1
    decreases shape.ny - row, shape.nx - column
  {
    if row >= shape.ny - 1 then []
    else
      [CellIndex(column, row)] +
      if column + 1 >= shape.nx - 1 then CellsFrom(shape, 0, row + 1) else CellsFrom(shape, column + 1, row)
  }

  ghost predicate NotBefore(cell: CellIndex, column: int, row: int) {
    cell.row > row || (cell.row == row && cell.column >= column)
  }

  /** A cell of the grid is not before the cursor if it is at the cursor or not before
      the next one. */
  lemma CursorMoves(shape: GridShape, column: nat, row: nat, cell: CellIndex)
    requires shape.Valid() && column < shape.nx - 1 && row < shape.ny - 1
    ensures shape.ContainsCell(column, row)
    ensures shape.ContainsCell(cell.column, cell.row) ==>
      (NotBefore(cell, column, row) <==>
       || cell == CellIndex(column, row)
       || if column + 1 >= shape.nx - 1 then NotBefore(cell, 0, row + 1) else NotBefore(cell, column + 1, row))
  {
  }

  lemma {:induction false} CellsFromMembers(shape: GridShape, column: nat, row: nat, cell: CellIndex)
    requires shape.Valid() && column < shape.nx - 1
    ensures cell in CellsFrom(shape, column, row) <==>
            shape.ContainsCell(cell.column, cell.row) && NotBefore(cell, column, row)
    decreases shape.ny - row, shape.nx - column
  {
    if row >= shape.ny - 1 {
      assert CellsFrom(shape, column, row) == [];
    } else {
      CursorMoves(shape, column, row, cell);
      hide NotBefore;
      var wraps := column + 1 >= shape.nx - 1;
      var rest := if wraps then CellsFrom(shape, 0, row + 1) else CellsFrom(shape, column + 1, row);
      assert CellsFrom(shape, column, row) == [CellIndex(column, row)] + rest;
      if wraps { CellsFromMembers(shape, 0, row + 1, cell); } else { CellsFromMembers(shape, column + 1, row, cell); }
    }
  }

  ghost function Occurrences<T>(s: seq<T>, x: T): nat {
    if s == [] then 0 else (if s[0] == x then 1 else 0) + Occurrences(s[1..], x)
  }

  lemma {:induction false} AbsentNeverOccurs<T>(s: seq<T>, x: T)
    requires x !in s
    ensures Occurrences(s, x) == 0
  {
    if s != [] { AbsentNeverOccurs(s[1..], x); }
  }

  /** Each remaining cell is visited exactly once. */
  lemma {:induction false} CellsFromOnce(shape: GridShape, column: nat, row: nat, cell: CellIndex)
    requires shape.Valid() && column < shape.nx - 1
    ensures Occurrences(CellsFrom(shape, column, row), cell) ==
            if shape.ContainsCell(cell.column, cell.row) && NotBefore(cell, column, row) then 1 else 0
    decreases shape.ny - row, shape.nx - column
  {
    var all := CellsFrom(shape, column, row);
    if row < shape.ny - 1 {
      var c, r := if column + 1 >= shape.nx - 1 then 0 else column + 1, if column + 1 >= shape.nx - 1 then row + 1 else row;
      CellsFromOnce(shape, c, r, cell);
      assert all[1..] == CellsFrom(shape, c, r);
    }
  }

  /** The iterator over all cells. */
  class GridCells {
    const shape: GridShape
    var nextColumn: nat
    var nextRow: nat

    ghost predicate Valid()
      reads this
    {
      shape.Valid() && nextColumn < shape.nx - 1
    }

    ghost function Remaining(): seq<CellIndex>
      reads this
      requires Valid()
    {
      CellsFrom(shape, nextColumn, nextRow)
    }

    constructor (shape: GridShape)
      requires shape.Valid()
      ensures Valid() && this.shape == shape && Remaining() == CellsFrom(shape, 0, 0)
    {
      this.shape := shape;
      nextColumn, nextRow := 0, 0;
    }

    method Next() returns (cell: Option<CellIndex>)
      requires Valid()
      modifies this
      ensures Valid()
      ensures cell.None? ==> old(Remaining()) == [] && Remaining() == []
      ensures cell.Some? ==> old(Remaining()) == [cell.value] + Remaining()
      ensures cell.Some? ==> shape.ContainsCell(cell.value.column, cell.value.row)
    {
      if nextRow >= shape.ny - 1 {
        return None;
      }
      cell := Some(CellIndex(nextColumn, nextRow));
      nextColumn := nextColumn + 1;
      if nextColumn >= shape.nx - 1 {
        nextColumn := 0;
        nextRow := nextRow + 1;
      }
    }
  }
}
