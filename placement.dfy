/** The three placement checks (`checkRowPlacement`, `checkColPlacement`,
    `checkRegionPlacement`).  Each takes the flat puzzle, the row letter, the
    1-based column number and the candidate value, builds the matrix, and
    answers whether the stringified value is absent from its unit.  None of
    them looks at whether the target cell is empty: the target cell is part
    of every unit. */
module Placement {
  import opened Wrappers
  import opened Grid

  /** Character at row `r`, column `c` of a flat puzzle. */
  function Cell(puzzle: string, r: int, c: int): char
    requires |puzzle| == Size * Size && 0 <= r < Size && 0 <= c < Size
  {
    puzzle[Size * r + c]
  }

  /** A cell holds the value when the one-character cell string is strictly
      equal to `'' + value`; a value of any other length never matches. */
  predicate Holds(cell: char, value: string)
  {
    value == [cell]
  }

  /** `cells.includes(valueAsString)` over one-character cell strings. */
  predicate Includes(cells: seq<char>, value: string)
  {
    |value| == 1 && value[0] in cells
  }

  /** `column - 1`: the zero-based column index, or `None` for `NaN` (a
      column that is not a number). */
  function ColumnIndex(column: Option<int>): Option<int>
  {
    match column
    case None => None
    case Some(k) => Some(k - 1)
  }

  /** The value already occurs in row `ri`. */
  ghost predicate InRow(puzzle: string, ri: int, value: string)
    requires |puzzle| == Size * Size
  {
    0 <= ri < Size && exists c :: 0 <= c < Size && Holds(Cell(puzzle, ri, c), value)
  }

  /** The value already occurs in column `ci`. */
  ghost predicate InColumn(puzzle: string, ci: int, value: string)
    requires |puzzle| == Size * Size
  {
    0 <= ci < Size && exists r :: 0 <= r < Size && Holds(Cell(puzzle, r, ci), value)
  }

  /** The value already occurs in the 3×3 region that crosses the band of
      row `ri` with the band of column `ci`. */
  ghost predicate InRegion(puzzle: string, ri: int, ci: int, value: string)
    requires |puzzle| == Size * Size
  {
    exists r, c :: SameBand(ri, r) && SameBand(ci, c) && Holds(Cell(puzzle, r, c), value)
  }

  /** `checkRowPlacement`.  `None` when the row letter is not one of `A..I`:
      the lookup gives `undefined` and reading a row of it throws. */
  function CheckRowPlacement(puzzle: string, row: string, column: Option<int>, value: string): (r: Option<bool>)
    requires |puzzle| == Size * Size
    ensures r.None? <==> TransformRowIndicatorToIndex(row).None?
    ensures r.Some? ==> (r.value <==> !InRow(puzzle, TransformRowIndicatorToIndex(row).value, value))
  {
    var puzzleMatrix := Rows(puzzle, Size);
    var rowIndex := TransformRowIndicatorToIndex(row);
    if rowIndex.None? then None
    else
      RowMeaning(puzzle, rowIndex.value, value);
      Some(!Includes(puzzleMatrix[rowIndex.value], value))
  }

  /** Row `ri` of the matrix holds the value exactly when the puzzle's row does. */
  lemma RowMeaning(puzzle: string, ri: int, value: string)
    requires |puzzle| == Size * Size && 0 <= ri < Size
    ensures |Rows(puzzle, Size)| == Size
    ensures Includes(Rows(puzzle, Size)[ri], value) <==> InRow(puzzle, ri, value)
  {
    GridOf(puzzle);
    var cells := Rows(puzzle, Size)[ri];
    if Includes(cells, value) {
      var c :| 0 <= c < |cells| && cells[c] == value[0];
      assert Holds(Cell(puzzle, ri, c), value);
    }
    if InRow(puzzle, ri, value) {
      var c :| 0 <= c < Size && Holds(Cell(puzzle, ri, c), value);
      assert cells[c] == value[0];
    }
  }

  /** `checkColPlacement`.  A column index outside `0..8` (or `NaN`) reads
      `undefined` in every row, which no value string equals, so the value
      is then reported absent. */
  function CheckColPlacement(puzzle: string, row: string, column: Option<int>, value: string): (r: bool)
    requires |puzzle| == Size * Size
    ensures r <==> !(ColumnIndex(column).Some? && InColumn(puzzle, ColumnIndex(column).value, value))
  {
    var puzzleMatrix := Rows(puzzle, Size);
    var colIndex := ColumnIndex(column);
    if colIndex.Some? && 0 <= colIndex.value < Size then
      GridOf(puzzle);
      var columnValues := seq(Size, k requires 0 <= k < Size => puzzleMatrix[k][colIndex.value]);
      assert forall k :: 0 <= k < Size ==> columnValues[k] == Cell(puzzle, k, colIndex.value);
      !Includes(columnValues, value)
    else
      true
  }

  /** All entries are indices of the grid. */
  predicate GridIndices(xs: seq<int>)
  {
    forall k :: 0 <= k < |xs| ==> 0 <= xs[k] < Size
  }

  /** Cells of row `r` at the columns `cs`, in that order. */
  function Picked(puzzle: string, r: int, cs: seq<int>): seq<char>
    requires |puzzle| == Size * Size && 0 <= r < Size && GridIndices(cs)
  {
    seq(|cs|, k requires 0 <= k < |cs| => Cell(puzzle, r, cs[k]))
  }

  /** One more column picks one more cell. */
  lemma PickedSnoc(puzzle: string, r: int, cs: seq<int>, j: nat)
    requires |puzzle| == Size * Size && 0 <= r < Size && GridIndices(cs) && j < |cs|
    ensures GridIndices(cs[..j]) && GridIndices(cs[..j + 1])
    ensures Picked(puzzle, r, cs[..j + 1]) == Picked(puzzle, r, cs[..j]) + [Cell(puzzle, r, cs[j])]
  {
  }

  /** Cells of the rows `rs` crossed with the columns `cs`, row after row. */
  function Crossed(puzzle: string, rs: seq<int>, cs: seq<int>): seq<char>
    requires |puzzle| == Size * Size && GridIndices(rs) && GridIndices(cs)
  {
    if rs == [] then []
    else Crossed(puzzle, rs[..|rs| - 1], cs) + Picked(puzzle, rs[|rs| - 1], cs)
  }

  /** A character occurs in the crossed cells iff it is the cell of one of
      the rows and one of the columns. */
  lemma {:induction false} CrossedMembers(puzzle: string, rs: seq<int>, cs: seq<int>, x: char)
    requires |puzzle| == Size * Size && GridIndices(rs) && GridIndices(cs)
    ensures x in Crossed(puzzle, rs, cs) <==>
              exists a, b :: 0 <= a < |rs| && 0 <= b < |cs| && x == Cell(puzzle, rs[a], cs[b])
    decreases |rs|
  {
    if rs != [] {
      var front, last := rs[..|rs| - 1], rs[|rs| - 1];
      CrossedMembers(puzzle, front, cs, x);
      if x in Crossed(puzzle, rs, cs) {
        if x !in Crossed(puzzle, front, cs) {
          var b :| 0 <= b < |cs| && Picked(puzzle, last, cs)[b] == x;
          assert x == Cell(puzzle, rs[|rs| - 1], cs[b]);
        } else {
          var a, b :| 0 <= a < |front| && 0 <= b < |cs| && x == Cell(puzzle, front[a], cs[b]);
          assert rs[a] == front[a];
        }
      }
      if exists a, b :: 0 <= a < |rs| && 0 <= b < |cs| && x == Cell(puzzle, rs[a], cs[b]) {
        var a, b :| 0 <= a < |rs| && 0 <= b < |cs| && x == Cell(puzzle, rs[a], cs[b]);
        if a == |rs| - 1 {
          assert Picked(puzzle, last, cs)[b] == x;
        } else {
          assert front[a] == rs[a];
        }
      }
    }
  }

  /** `checkRegionPlacement`: collects the cells of the row band crossed
      with the column band and looks the value up among them.  A row letter
      outside `A..I` or a column outside `1..9` gives an empty band, an empty
      region and so no conflict (and, unlike the row check, no exception). */
  method CheckRegionPlacement(puzzle: string, row: string, column: Option<int>, value: string)
    returns (free: bool)
    requires |puzzle| == Size * Size
    ensures free <==>
              !(TransformRowIndicatorToIndex(row).Some? && ColumnIndex(column).Some? &&
                InRegion(puzzle, TransformRowIndicatorToIndex(row).value, ColumnIndex(column).value, value))
  {
    var puzzleMatrix := TransformStringToMatrix(puzzle, Size);
    var colIndex := ColumnIndex(column);
    var rowIndex := TransformRowIndicatorToIndex(row);
    var regionColIndices := MapIndexToRegionIndices(colIndex);
    var regionRowIndices := MapIndexToRegionIndices(rowIndex);
    assert GridIndices(regionRowIndices) && GridIndices(regionColIndices) by {
      forall k | 0 <= k < |regionRowIndices| ensures 0 <= regionRowIndices[k] < Size {
        assert regionRowIndices[k] in regionRowIndices;
      }
      forall k | 0 <= k < |regionColIndices| ensures 0 <= regionColIndices[k] < Size {
        assert regionColIndices[k] in regionColIndices;
      }
    }
    var regionArray := CollectRegion(puzzle, puzzleMatrix, regionRowIndices, regionColIndices);
    free := !Includes(regionArray, value);
    RegionMeaning(puzzle, rowIndex, colIndex, regionRowIndices, regionColIndices, value);
  }

  /** The nested `forEach` of `checkRegionPlacement`: pushes the cell of
      every row in `rs` and column in `cs`, row after row. */
  method CollectRegion(puzzle: string, puzzleMatrix: seq<string>, rs: seq<int>, cs: seq<int>)
    returns (regionArray: seq<char>)
    requires |puzzle| == Size * Size && puzzleMatrix == Rows(puzzle, Size)
    requires GridIndices(rs) && GridIndices(cs)
    ensures regionArray == Crossed(puzzle, rs, cs)
  {
    regionArray := [];
    for i := 0 to |rs|
      invariant regionArray == Crossed(puzzle, rs[..i], cs)
    {
      var r := rs[i];
      ghost var before := regionArray;
      for j := 0 to |cs|
        invariant regionArray == before + Picked(puzzle, r, cs[..j])
      {
        var c := cs[j];
        RowsCell(puzzle, Size, r, c);
        PickedSnoc(puzzle, r, cs, j);
        regionArray := regionArray + [puzzleMatrix[r][c]];
      }
      assert cs[..|cs|] == cs;
      assert rs[..i + 1][..i] == rs[..i];
    }
    assert rs[..|rs|] == rs;
  }

  /** The crossed bands hold the value exactly when the region does. */
  lemma RegionMeaning(puzzle: string, rowIndex: Option<int>, colIndex: Option<int>,
                      rs: seq<int>, cs: seq<int>, value: string)
    requires |puzzle| == Size * Size && GridIndices(rs) && GridIndices(cs)
    requires forall j :: j in rs <==> rowIndex.Some? && SameBand(rowIndex.value, j)
    requires forall j :: j in cs <==> colIndex.Some? && SameBand(colIndex.value, j)
    ensures Includes(Crossed(puzzle, rs, cs), value) <==>
              rowIndex.Some? && colIndex.Some? && InRegion(puzzle, rowIndex.value, colIndex.value, value)
  {
    if |value| == 1 {
      CrossedMembers(puzzle, rs, cs, value[0]);
      if rowIndex.Some? && colIndex.Some? && InRegion(puzzle, rowIndex.value, colIndex.value, value) {
        var r, c :| SameBand(rowIndex.value, r) && SameBand(colIndex.value, c) && Holds(Cell(puzzle, r, c), value);
        assert r in rs && c in cs;
        var a :| 0 <= a < |rs| && rs[a] == r;
        var b :| 0 <= b < |cs| && cs[b] == c;
        assert value[0] == Cell(puzzle, rs[a], cs[b]);
      }
      if value[0] in Crossed(puzzle, rs, cs) {
        var a, b :| 0 <= a < |rs| && 0 <= b < |cs| && value[0] == Cell(puzzle, rs[a], cs[b]);
        assert rs[a] in rs && cs[b] in cs;
        assert Holds(Cell(puzzle, rs[a], cs[b]), value);
      }
    }
  }
}
