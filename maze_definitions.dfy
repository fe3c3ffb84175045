/**
 * The grid model: coordinates, the row-major grid of 4-bit wall masks, the
 * Maze object that owns it, and the bounds checks every other component uses.
 */
module MazeDefinitions {
  import opened Wrappers
  import opened Directions

  /** A cell position: x indexes columns, y indexes rows. */
  datatype Coord = Coord(x: int, y: int)

  /** grid[y][x] is the wall mask of cell (x, y). */
  type Grid = seq<seq<nat>>

  /** The error kinds the maze engine raises. */
  datatype MazeError =
    | InvalidDimension(dimension: string)
    | OutOfBounds(name: string, coord: Coord)
    | DegenerateEndpoints(coord: Coord)
    | NotAdjacent(coord1: Coord, coord2: Coord)
    | Unreachable(entry: Coord, exit: Coord)
    | WallMismatch(cell: Coord, direction: Direction, neighbor: Coord, opposite: Direction)
    | OpenBorderWall(direction: Direction, coord: Coord)
    | NotGenerated
    | PathNotSolved
    | NonAdjacentStep(from: Coord, to: Coord)

  /** A fully closed cell. */
  const CLOSED: nat := 15

  predicate InBounds(c: Coord, width: int, height: int)
  {
    0 <= c.x < width && 0 <= c.y < height
  }

  /** The neighbour of c one step in direction d. */
  function Move(c: Coord, d: Direction): Coord
  {
    Coord(c.x + DirMoveDelta(d).0, c.y + DirMoveDelta(d).1)
  }

  /** The grid has `height` rows of `width` masks in the range 0..15. */
  predicate WellFormed(grid: Grid, width: int, height: int)
  {
    && |grid| == height
    && (forall y :: 0 <= y < |grid| ==> |grid[y]| == width)
    && (forall y, x :: 0 <= y < |grid| && 0 <= x < |grid[y]| ==> grid[y][x] <= CLOSED)
  }

  /** Every cell of a width x height grid set to 15. */
  function AllClosed(width: nat, height: nat): (g: Grid)
    ensures WellFormed(g, width, height)
    ensures forall y, x :: 0 <= y < height && 0 <= x < width ==> g[y][x] == CLOSED
  {
    seq(height, _ => seq(width, _ => CLOSED))
  }

  /** The checks of the Maze constructor, in the order the constructor makes them. */
  function ValidateMazeArgs(height: int, width: int, entry: Coord, exit: Coord): (r: Outcome<MazeError>)
    ensures r == Pass <==> width > 0 && height > 0 && InBounds(entry, width, height)
                           && InBounds(exit, width, height) && entry != exit
    ensures width <= 0 ==> r == Fail(InvalidDimension("width"))
    ensures width > 0 && height <= 0 ==> r == Fail(InvalidDimension("height"))
    ensures width > 0 && height > 0 && !InBounds(entry, width, height) ==> r == Fail(OutOfBounds("entry", entry))
    ensures (width > 0 && height > 0 && InBounds(entry, width, height) && !InBounds(exit, width, height))
            ==> r == Fail(OutOfBounds("exit", exit))
    ensures (width > 0 && height > 0 && InBounds(entry, width, height) && InBounds(exit, width, height)
             && entry == exit) ==> r == Fail(DegenerateEndpoints(entry))
  {
    if width <= 0 then Fail(InvalidDimension("width"))
    else if height <= 0 then Fail(InvalidDimension("height"))
    else if !InBounds(entry, width, height) then Fail(OutOfBounds("entry", entry))
    else if !InBounds(exit, width, height) then Fail(OutOfBounds("exit", exit))
    else if entry == exit then Fail(DegenerateEndpoints(entry))
    else Pass
  }

  class Maze {
    const width: int
    const height: int
    const entry: Coord
    const exit: Coord
    var grid: Grid

    /** The invariants the constructor establishes and carving keeps. */
    ghost predicate Valid()
      reads this
    {
      && ValidateMazeArgs(height, width, entry, exit) == Pass
      && WellFormed(grid, width, height)
    }

    /** Builds the all-closed grid row by row; the arguments were validated by NewMaze. */
    constructor (height: int, width: int, entry: Coord, exit: Coord)
      requires ValidateMazeArgs(height, width, entry, exit) == Pass
      ensures Valid()
      ensures this.width == width && this.height == height
      ensures this.entry == entry && this.exit == exit
      ensures grid == AllClosed(width, height)
    {
      this.width := width;
      this.height := height;
      this.entry := entry;
      this.exit := exit;
      var rows: Grid := [];
      var i := 0;
      while i < height
        invariant 0 <= i <= height
        invariant rows == AllClosed(width, i)
      {
        rows := rows + [seq(width, _ => CLOSED)];
        i := i + 1;
      }
      grid := rows;
    }

    /** is_in_bounds */
    predicate IsInBounds(coord: Coord)
      ensures IsInBounds(coord) <==> 0 <= coord.x < width && 0 <= coord.y < height
    {
      if coord.x < 0 then false
      else if coord.x >= width then false
      else if coord.y < 0 then false
      else if coord.y >= height then false
      else true
    }

    /** coordinate_validation: the coordinate unchanged when it lies in the grid, an error naming it otherwise. */
    function CoordinateValidation(coord: Coord, name: string): (r: Result<Coord, MazeError>)
      ensures r.Success? <==> InBounds(coord, width, height)
      ensures r.Success? ==> r.value == coord
      ensures r.Failure? ==> r.error == OutOfBounds(name, coord)
    {
      if !IsInBounds(coord) then Failure(OutOfBounds(name, coord)) else Success(coord)
    }

    /** entry_point */
    function EntryPoint(entry: Coord): (r: Result<Coord, MazeError>)
      ensures r == CoordinateValidation(entry, "entry")
      ensures r.Success? <==> InBounds(entry, width, height)
    {
      CoordinateValidation(entry, "entry")
    }

    /** exit_point */
    function ExitPoint(exit: Coord): (r: Result<Coord, MazeError>)
      ensures r == CoordinateValidation(exit, "exit")
      ensures r.Success? <==> InBounds(exit, width, height)
    {
      CoordinateValidation(exit, "exit")
    }
  }

  /** Maze(height, width, entry, exit): a fresh all-closed maze, or the first failed check. */
  method NewMaze(height: int, width: int, entry: Coord, exit: Coord) returns (r: Result<Maze, MazeError>)
    ensures r.Failure? <==> ValidateMazeArgs(height, width, entry, exit).Fail?
    ensures r.Failure? ==> r.error == ValidateMazeArgs(height, width, entry, exit).error
    ensures r.Success? ==> && fresh(r.value) && r.value.Valid()
                           && r.value.width == width && r.value.height == height
                           && r.value.entry == entry && r.value.exit == exit
                           && r.value.grid == AllClosed(width, height)
  {
    var check := ValidateMazeArgs(height, width, entry, exit);
    if check.Fail? {
      return Failure(check.error);
    }
    var m := new Maze(height, width, entry, exit);
    return Success(m);
  }
}
