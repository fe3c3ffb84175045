/**
 * The cell-range check that the output writer and the ASCII renderer both
 * make before they read a grid: every value must be an integer in 0..15,
 * and the first offending cell in row-major order is the one reported.
 */
module GridChecks {
  import opened Wrappers
  import opened MazeDefinitions

  /** A value both consumers accept as a wall mask. */
  predicate ValidCell(v: int)
  {
    0 <= v <= 15
  }

  /** The first column of the row whose value is out of range. */
  function FirstBadCell(row: seq<int>): (r: Option<nat>)
    ensures r.None? <==> forall x :: 0 <= x < |row| ==> ValidCell(row[x])
    ensures r.Some? ==> && r.value < |row| && !ValidCell(row[r.value])
                        && forall x :: 0 <= x < r.value ==> ValidCell(row[x])
    decreases |row|
  {
    if row == [] then None
    else if !ValidCell(row[0]) then Some(0)
    else
      match FirstBadCell(row[1..])
      case None => None
      case Some(x) => Some(x + 1)
  }

  /** Every cell of every row is in range. */
  predicate AllCellsValid(grid: seq<seq<int>>)
  {
    forall y, x :: 0 <= y < |grid| && 0 <= x < |grid[y]| ==> ValidCell(grid[y][x])
  }

  /** The first out-of-range cell scanning row by row, each row left to right. */
  function FirstBadInGrid(grid: seq<seq<int>>): (r: Option<Coord>)
    ensures r.None? <==> AllCellsValid(grid)
    ensures r.Some? ==> && 0 <= r.value.y < |grid| && 0 <= r.value.x < |grid[r.value.y]|
                        && !ValidCell(grid[r.value.y][r.value.x])
                        && (forall y, x :: 0 <= y < r.value.y && 0 <= x < |grid[y]| ==> ValidCell(grid[y][x]))
                        && (forall x :: 0 <= x < r.value.x ==> ValidCell(grid[r.value.y][x]))
    decreases |grid|
  {
    if grid == [] then None
    else
      match FirstBadCell(grid[0])
      case Some(x) => Some(Coord(x, 0))
      case None =>
        match FirstBadInGrid(grid[1..])
        case None => None
        case Some(c) => Some(Coord(c.x, c.y + 1))
  }

  /** Every row has the expected width and there are `height` of them. */
  predicate Shaped(grid: seq<seq<int>>, width: int, height: int)
  {
    |grid| == height && forall y :: 0 <= y < |grid| ==> |grid[y]| == width
  }

  /** For a grid of masks, the right shape with every cell in range is the maze model's well-formedness. */
  lemma ShapedValidIsWellFormed(grid: Grid, width: int, height: int)
    ensures Shaped(grid, width, height) && FirstBadInGrid(grid) == None <==> WellFormed(grid, width, height)
  {
  }
}
