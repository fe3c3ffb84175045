/**
 * Wall operations: the three bit primitives on one cell's mask and the carve
 * that opens the shared wall of two adjacent cells on both sides at once,
 * together with the structural invariants that carving keeps.
 */
module WallOperations {
  import opened Wrappers
  import opened Bits
  import opened Directions
  import opened MazeDefinitions

  /** remove_a_wall: clear the direction's bit (open that wall). */
  function RemoveAWall(cell: nat, direction: nat): (r: nat)
    ensures r <= cell
    ensures forall k: nat :: TestBit(r, k) == (TestBit(cell, k) && !TestBit(direction, k))
  {
    AndNotBits(cell, direction);
    AndNotAtMost(cell, direction);
    AndNot(cell, direction)
  }

  /** add_a_wall: set the direction's bit (close that wall). */
  function AddAWall(cell: nat, direction: nat): (r: nat)
    ensures forall k: nat :: TestBit(r, k) == (TestBit(cell, k) || TestBit(direction, k))
  {
    OrBits(cell, direction);
    Or(cell, direction)
  }

  /** is_it_solid_wall: the cell and the direction share a set bit (the wall is closed). */
  predicate IsItSolidWall(cell: nat, direction: nat)
    ensures forall k: nat :: direction == Pow2(k) ==> (IsItSolidWall(cell, direction) <==> TestBit(cell, k))
  {
    forall k: nat | direction == Pow2(k) ensures (And(cell, direction) != 0) == TestBit(cell, k) {
      AndPow2(cell, k);
    }
    And(cell, direction) != 0
  }

  /** The wall of a cell on side d is closed. */
  predicate Closed(cell: nat, d: Direction)
  {
    IsItSolidWall(cell, DirBitValue(d))
  }

  lemma ClosedIsBit(cell: nat, d: Direction)
    ensures Closed(cell, d) == TestBit(cell, BitIndex(d))
  {
    BitValuesAreSingleBits();
  }

  /** A cell of mask 15 has all four walls closed. */
  lemma AllWallsOfClosed(d: Direction)
    ensures Closed(CLOSED, d)
  {
    AndPow2(CLOSED, BitIndex(d));
    BitValuesAreSingleBits();
  }

  /** 15 with the north wall removed is 14. */
  lemma RemoveNorthFromClosed()
    ensures RemoveAWall(15, DirBitValue(N)) == 14
  {
  }

  /** Opening one side of a cell opens that side and leaves the other three as they were. */
  lemma {:induction false} RemoveAWallSides(cell: nat, d: Direction, d': Direction)
    ensures Closed(RemoveAWall(cell, DirBitValue(d)), d') == (Closed(cell, d') && d' != d)
  {
    ClosedIsBit(cell, d');
    ClosedIsBit(RemoveAWall(cell, DirBitValue(d)), d');
    BitValuesAreSingleBits();
    Pow2Bit(BitIndex(d), BitIndex(d'));
  }

  /** Closing one side of a cell closes that side and leaves the other three as they were. */
  lemma {:induction false} AddAWallSides(cell: nat, d: Direction, d': Direction)
    ensures Closed(AddAWall(cell, DirBitValue(d)), d') == (Closed(cell, d') || d' == d)
  {
    ClosedIsBit(cell, d');
    ClosedIsBit(AddAWall(cell, DirBitValue(d)), d');
    BitValuesAreSingleBits();
    Pow2Bit(BitIndex(d), BitIndex(d'));
  }

  /** Adding a wall twice is adding it once. */
  lemma {:induction false} AddAWallIdempotent(cell: nat, direction: nat)
    ensures AddAWall(AddAWall(cell, direction), direction) == AddAWall(cell, direction)
  {
    BitsDetermineValue(AddAWall(AddAWall(cell, direction), direction), AddAWall(cell, direction));
  }

  /** Removing a wall twice is removing it once. */
  lemma {:induction false} RemoveAWallIdempotent(cell: nat, direction: nat)
    ensures RemoveAWall(RemoveAWall(cell, direction), direction) == RemoveAWall(cell, direction)
  {
    BitsDetermineValue(RemoveAWall(RemoveAWall(cell, direction), direction), RemoveAWall(cell, direction));
  }

  /** Closing a wall that was just opened restores the mask, provided the wall was closed before. */
  lemma {:induction false} AddAfterRemove(cell: nat, d: Direction)
    requires Closed(cell, d)
    ensures AddAWall(RemoveAWall(cell, DirBitValue(d)), DirBitValue(d)) == cell
  {
    ClosedIsBit(cell, d);
    BitValuesAreSingleBits();
    forall k: nat ensures TestBit(AddAWall(RemoveAWall(cell, DirBitValue(d)), DirBitValue(d)), k) == TestBit(cell, k) {
      Pow2Bit(BitIndex(d), k);
    }
    BitsDetermineValue(AddAWall(RemoveAWall(cell, DirBitValue(d)), DirBitValue(d)), cell);
  }

  /** On masks 0..15 and direction bits, both primitives stay in 0..15. */
  lemma {:induction false} PrimitivesInRange(cell: nat, d: Direction)
    requires cell <= CLOSED
    ensures RemoveAWall(cell, DirBitValue(d)) <= CLOSED
    ensures AddAWall(cell, DirBitValue(d)) <= CLOSED
  {
    assert Pow2(4) == 16 by {
      assert Pow2(1) == 2 && Pow2(2) == 4 && Pow2(3) == 8;
    }
    OrBelow(cell, DirBitValue(d), 4);
  }

  /** Two cells one unit step apart. */
  predicate Adjacent(c1: Coord, c2: Coord)
  {
    Abs(c1.x - c2.x) + Abs(c1.y - c2.y) == 1
  }

  /** The direction from c1 to c2, tried in the order E, W, N, S. */
  function DirectionBetween(c1: Coord, c2: Coord): (r: Option<Direction>)
    ensures r.Some? ==> Move(c1, r.value) == c2
    ensures r.None? ==> forall d :: Move(c1, d) != c2
    ensures r.Some? <==> Adjacent(c1, c2)
  {
    if c2.x == c1.x + 1 && c2.y == c1.y then Some(E)
    else if c2.x == c1.x - 1 && c2.y == c1.y then Some(W)
    else if c2.y == c1.y - 1 && c1.x == c2.x then Some(N)
    else if c2.y == c1.y + 1 && c1.x == c2.x then Some(S)
    else None
  }

  /** Stepping and stepping back in the opposite direction returns to the start. */
  lemma MoveBack(c: Coord, d: Direction)
    ensures Move(Move(c, d), DirOpposite(d)) == c
  {
  }

  /** The outcome of carve_coordinate's checks: both cells in the grid (coord1 first), then adjacency. */
  function CarveCheck(width: int, height: int, coord1: Coord, coord2: Coord): (r: Outcome<MazeError>)
    ensures r.Pass? <==> InBounds(coord1, width, height) && InBounds(coord2, width, height) && Adjacent(coord1, coord2)
    ensures !InBounds(coord1, width, height) ==> r == Fail(OutOfBounds("coord1", coord1))
    ensures InBounds(coord1, width, height) && !InBounds(coord2, width, height) ==> r == Fail(OutOfBounds("coord2", coord2))
    ensures (InBounds(coord1, width, height) && InBounds(coord2, width, height) && !Adjacent(coord1, coord2))
            ==> r == Fail(NotAdjacent(coord1, coord2))
  {
    if !InBounds(coord1, width, height) then Fail(OutOfBounds("coord1", coord1))
    else if !InBounds(coord2, width, height) then Fail(OutOfBounds("coord2", coord2))
    else if !Adjacent(coord1, coord2) then Fail(NotAdjacent(coord1, coord2))
    else Pass
  }

  function SetCell(grid: Grid, width: int, height: int, c: Coord, v: nat): (g: Grid)
    requires WellFormed(grid, width, height) && InBounds(c, width, height)
    ensures |g| == |grid| && (forall y :: 0 <= y < |g| ==> |g[y]| == |grid[y]|)
    ensures forall y, x :: 0 <= y < |g| && 0 <= x < |g[y]| ==> g[y][x] == if Coord(x, y) == c then v else grid[y][x]
  {
    var row: seq<nat> := grid[c.y][c.x := v];
    grid[c.y := row]
  }

  /** The grid after carving between two adjacent cells of a well-formed grid. */
  function CarvedGrid(grid: Grid, width: int, height: int, coord1: Coord, coord2: Coord): Grid
    requires WellFormed(grid, width, height)
    requires CarveCheck(width, height, coord1, coord2) == Pass
  {
    var d := DirectionBetween(coord1, coord2).value;
    var a := RemoveAWall(grid[coord1.y][coord1.x], DirBitValue(d));
    var b := RemoveAWall(grid[coord2.y][coord2.x], DirBitValue(DirOpposite(d)));
    var g1 := SetCell(grid, width, height, coord1, a);
    SetCell(g1, width, height, coord2, b)
  }

  /** The mask of cell c after carving between coord1 and coord2. */
  function CarvedMask(grid: Grid, width: int, height: int, coord1: Coord, coord2: Coord, c: Coord): nat
    requires WellFormed(grid, width, height)
    requires CarveCheck(width, height, coord1, coord2) == Pass
    requires InBounds(c, width, height)
  {
    var d := DirectionBetween(coord1, coord2).value;
    if c == coord1 then RemoveAWall(grid[coord1.y][coord1.x], DirBitValue(d))
    else if c == coord2 then RemoveAWall(grid[coord2.y][coord2.x], DirBitValue(DirOpposite(d)))
    else grid[c.y][c.x]
  }

  lemma CarvedGridMasks(grid: Grid, width: int, height: int, coord1: Coord, coord2: Coord)
    requires WellFormed(grid, width, height)
    requires CarveCheck(width, height, coord1, coord2) == Pass
    ensures WellFormed(CarvedGrid(grid, width, height, coord1, coord2), width, height)
    ensures forall y, x :: 0 <= y < height && 0 <= x < width ==>
              CarvedGrid(grid, width, height, coord1, coord2)[y][x] == CarvedMask(grid, width, height, coord1, coord2, Coord(x, y))
  {
    var d := DirectionBetween(coord1, coord2).value;
    PrimitivesInRange(grid[coord1.y][coord1.x], d);
    PrimitivesInRange(grid[coord2.y][coord2.x], DirOpposite(d));
  }

  /** The walls of one cell after a carve: only the two walls of the shared edge change. */
  lemma {:induction false} CarvedMaskSides(grid: Grid, width: int, height: int, coord1: Coord, coord2: Coord, c: Coord, d': Direction)
    requires WellFormed(grid, width, height)
    requires CarveCheck(width, height, coord1, coord2) == Pass
    requires InBounds(c, width, height)
    ensures Closed(CarvedMask(grid, width, height, coord1, coord2, c), d') ==
              (&& Closed(grid[c.y][c.x], d')
               && !(c == coord1 && Move(coord1, d') == coord2)
               && !(c == coord2 && Move(coord2, d') == coord1))
  {
    var d := DirectionBetween(coord1, coord2).value;
    MoveBack(coord1, d);
    if c == coord1 {
      RemoveAWallSides(grid[c.y][c.x], d, d');
      if Move(coord1, d') == coord2 { MoveDeltaInjective(d, d'); }
    } else if c == coord2 {
      RemoveAWallSides(grid[c.y][c.x], DirOpposite(d), d');
      if Move(coord2, d') == coord1 { MoveDeltaInjective(DirOpposite(d), d'); }
    }
  }

  /** The wall on side d of the in-grid cell c is closed. */
  predicate WallAt(grid: Grid, width: int, height: int, c: Coord, d: Direction)
    requires WellFormed(grid, width, height) && InBounds(c, width, height)
  {
    Closed(grid[c.y][c.x], d)
  }

  /**
   * What a carve does to every cell: the wall from coord1 toward coord2 and
   * the wall from coord2 back toward coord1 are opened; every other wall of
   * every cell is as it was, and every other cell is unchanged.
   */
  lemma CarvedCells(grid: Grid, width: int, height: int, coord1: Coord, coord2: Coord)
    requires WellFormed(grid, width, height)
    requires CarveCheck(width, height, coord1, coord2) == Pass
    ensures WellFormed(CarvedGrid(grid, width, height, coord1, coord2), width, height)
    ensures forall y, x :: 0 <= y < height && 0 <= x < width && Coord(x, y) != coord1 && Coord(x, y) != coord2
              ==> CarvedGrid(grid, width, height, coord1, coord2)[y][x] == grid[y][x]
    ensures forall c, d' :: InBounds(c, width, height) ==>
              WallAt(CarvedGrid(grid, width, height, coord1, coord2), width, height, c, d') ==
                (&& WallAt(grid, width, height, c, d')
                 && !(c == coord1 && Move(coord1, d') == coord2)
                 && !(c == coord2 && Move(coord2, d') == coord1))
  {
    CarvedGridMasks(grid, width, height, coord1, coord2);
    forall c, d' | InBounds(c, width, height)
      ensures WallAt(CarvedGrid(grid, width, height, coord1, coord2), width, height, c, d') ==
                (&& WallAt(grid, width, height, c, d')
                 && !(c == coord1 && Move(coord1, d') == coord2)
                 && !(c == coord2 && Move(coord2, d') == coord1))
    {
      CarvedMaskSides(grid, width, height, coord1, coord2, c, d');
    }
  }

  /** carve_coordinate: validate both cells and their adjacency, then open the shared wall on both sides. */
  method CarveCoordinate(maze: Maze, coord1: Coord, coord2: Coord) returns (r: Outcome<MazeError>)
    requires maze.Valid()
    modifies maze
    ensures maze.Valid()
    ensures r == CarveCheck(maze.width, maze.height, coord1, coord2)
    ensures r.Pass? ==> maze.grid == CarvedGrid(old(maze.grid), maze.width, maze.height, coord1, coord2)
    ensures r.Fail? ==> maze.grid == old(maze.grid)
  {
    var v1 := maze.CoordinateValidation(coord1, "coord1");
    if v1.Failure? {
      return Fail(v1.error);
    }
    var v2 := maze.CoordinateValidation(coord2, "coord2");
    if v2.Failure? {
      return Fail(v2.error);
    }
    if Abs(coord1.x - coord2.x) + Abs(coord1.y - coord2.y) != 1 {
      return Fail(NotAdjacent(coord1, coord2));
    }
    var cellA := maze.grid[coord1.y][coord1.x];
    var cellB := maze.grid[coord2.y][coord2.x];
    var direction := DirectionBetween(coord1, coord2);
    if direction.None? {
      assert false;
    }
    var d := direction.value;
    var newCellA := RemoveAWall(cellA, DirBitValue(d));
    var newCellB := RemoveAWall(cellB, DirBitValue(DirOpposite(d)));
    ghost var before := maze.grid;
    CarvedCells(before, maze.width, maze.height, coord1, coord2);
    var rowA: seq<nat> := maze.grid[coord1.y][coord1.x := newCellA];
    maze.grid := maze.grid[coord1.y := rowA];
    var rowB: seq<nat> := maze.grid[coord2.y][coord2.x := newCellB];
    maze.grid := maze.grid[coord2.y := rowB];
    r := Pass;
  }

  /**
   * Wall coherence as wall_validator checks it: the E wall of every cell with
   * a right neighbour agrees with that neighbour's W wall, and the S wall of
   * every cell with a neighbour below agrees with that neighbour's N wall.
   */
  ghost predicate WallsCoherent(grid: Grid, width: int, height: int)
    requires WellFormed(grid, width, height)
  {
    && (forall c :: InBounds(c, width, height) && c.x + 1 < width ==>
          WallAt(grid, width, height, c, E) == WallAt(grid, width, height, Coord(c.x + 1, c.y), W))
    && (forall c :: InBounds(c, width, height) && c.y + 1 < height ==>
          WallAt(grid, width, height, c, S) == WallAt(grid, width, height, Coord(c.x, c.y + 1), N))
  }

  /** Coherence stated for every side of every cell: a wall facing an in-grid neighbour agrees with that neighbour's opposite wall. */
  ghost predicate SidesAgree(grid: Grid, width: int, height: int)
    requires WellFormed(grid, width, height)
  {
    forall c, d :: InBounds(c, width, height) && InBounds(Move(c, d), width, height) ==>
      WallAt(grid, width, height, c, d) == WallAt(grid, width, height, Move(c, d), DirOpposite(d))
  }

  /** The two statements of coherence are the same property. */
  lemma CoherentSidesAgree(grid: Grid, width: int, height: int)
    requires WellFormed(grid, width, height)
    ensures WallsCoherent(grid, width, height) <==> SidesAgree(grid, width, height)
  {
    if WallsCoherent(grid, width, height) {
      forall c, d | InBounds(c, width, height) && InBounds(Move(c, d), width, height)
        ensures WallAt(grid, width, height, c, d) == WallAt(grid, width, height, Move(c, d), DirOpposite(d))
      {
        CoherentSide(grid, width, height, c, d);
      }
    }
    if SidesAgree(grid, width, height) {
      forall c | InBounds(c, width, height) && c.x + 1 < width
        ensures WallAt(grid, width, height, c, E) == WallAt(grid, width, height, Coord(c.x + 1, c.y), W)
      {
        assert Move(c, E) == Coord(c.x + 1, c.y);
      }
      forall c | InBounds(c, width, height) && c.y + 1 < height
        ensures WallAt(grid, width, height, c, S) == WallAt(grid, width, height, Coord(c.x, c.y + 1), N)
      {
        assert Move(c, S) == Coord(c.x, c.y + 1);
      }
    }
  }

  lemma CoherentSide(grid: Grid, width: int, height: int, c: Coord, d: Direction)
    requires WellFormed(grid, width, height) && WallsCoherent(grid, width, height)
    requires InBounds(c, width, height) && InBounds(Move(c, d), width, height)
    ensures WallAt(grid, width, height, c, d) == WallAt(grid, width, height, Move(c, d), DirOpposite(d))
  {
    var n := Move(c, d);
    match d
    case N => assert c == Coord(n.x, n.y + 1);
    case W => assert c == Coord(n.x + 1, n.y);
    case E => assert n == Coord(c.x + 1, c.y);
    case S => assert n == Coord(c.x, c.y + 1);
  }

  /** Closed borders as closed_borders_validator checks them: N on the top row, W on the left column, S on the bottom row, E on the right column. */
  ghost predicate BordersClosed(grid: Grid, width: int, height: int)
    requires WellFormed(grid, width, height)
  {
    && (forall c :: InBounds(c, width, height) && c.y == 0 ==> WallAt(grid, width, height, c, N))
    && (forall c :: InBounds(c, width, height) && c.x == 0 ==> WallAt(grid, width, height, c, W))
    && (forall c :: InBounds(c, width, height) && c.y == height - 1 ==> WallAt(grid, width, height, c, S))
    && (forall c :: InBounds(c, width, height) && c.x == width - 1 ==> WallAt(grid, width, height, c, E))
  }

  /** Closed borders stated per side: every wall that faces out of the grid is closed. */
  ghost predicate OutwardWallsClosed(grid: Grid, width: int, height: int)
    requires WellFormed(grid, width, height)
  {
    forall c, d :: InBounds(c, width, height) && !InBounds(Move(c, d), width, height) ==>
      WallAt(grid, width, height, c, d)
  }

  /** The two statements of closed borders are the same property. */
  lemma BordersClosedOutward(grid: Grid, width: int, height: int)
    requires WellFormed(grid, width, height)
    ensures BordersClosed(grid, width, height) <==> OutwardWallsClosed(grid, width, height)
  {
    if BordersClosed(grid, width, height) {
      forall c, d | InBounds(c, width, height) && !InBounds(Move(c, d), width, height)
        ensures WallAt(grid, width, height, c, d)
      {
        BorderSide(grid, width, height, c, d);
      }
    }
    if OutwardWallsClosed(grid, width, height) {
      forall c | InBounds(c, width, height) && c.y == 0 ensures WallAt(grid, width, height, c, N) {
        assert !InBounds(Move(c, N), width, height);
      }
      forall c | InBounds(c, width, height) && c.x == 0 ensures WallAt(grid, width, height, c, W) {
        assert !InBounds(Move(c, W), width, height);
      }
      forall c | InBounds(c, width, height) && c.y == height - 1 ensures WallAt(grid, width, height, c, S) {
        assert !InBounds(Move(c, S), width, height);
      }
      forall c | InBounds(c, width, height) && c.x == width - 1 ensures WallAt(grid, width, height, c, E) {
        assert !InBounds(Move(c, E), width, height);
      }
    }
  }

  lemma BorderSide(grid: Grid, width: int, height: int, c: Coord, d: Direction)
    requires WellFormed(grid, width, height) && BordersClosed(grid, width, height)
    requires InBounds(c, width, height) && !InBounds(Move(c, d), width, height)
    ensures WallAt(grid, width, height, c, d)
  {
    match d
    case N => assert c.y == 0;
    case W => assert c.x == 0;
    case S => assert c.y == height - 1;
    case E => assert c.x == width - 1;
  }

  /** A carve keeps wall coherence: it opens both sides of the shared edge. */
  lemma CarvePreservesCoherence(grid: Grid, width: int, height: int, coord1: Coord, coord2: Coord)
    requires WellFormed(grid, width, height)
    requires CarveCheck(width, height, coord1, coord2) == Pass
    requires WallsCoherent(grid, width, height)
    ensures WellFormed(CarvedGrid(grid, width, height, coord1, coord2), width, height)
    ensures WallsCoherent(CarvedGrid(grid, width, height, coord1, coord2), width, height)
  {
    var g := CarvedGrid(grid, width, height, coord1, coord2);
    CarvedCells(grid, width, height, coord1, coord2);
    CoherentSidesAgree(grid, width, height);
    forall c, d | InBounds(c, width, height) && InBounds(Move(c, d), width, height)
      ensures WallAt(g, width, height, c, d) == WallAt(g, width, height, Move(c, d), DirOpposite(d))
    {
      var n := Move(c, d);
      MoveBack(c, d);
      OppositeInvolution(d);
      if n == coord2 && Move(coord2, DirOpposite(d)) == coord1 {
        MoveBack(n, DirOpposite(d));
      }
      if n == coord1 && Move(coord1, DirOpposite(d)) == coord2 {
        MoveBack(n, DirOpposite(d));
      }
    }
    CoherentSidesAgree(g, width, height);
  }

  /** A carve never opens an outer wall: the shared edge always faces an in-grid neighbour. */
  lemma CarvePreservesBorders(grid: Grid, width: int, height: int, coord1: Coord, coord2: Coord)
    requires WellFormed(grid, width, height)
    requires CarveCheck(width, height, coord1, coord2) == Pass
    requires BordersClosed(grid, width, height)
    ensures WellFormed(CarvedGrid(grid, width, height, coord1, coord2), width, height)
    ensures BordersClosed(CarvedGrid(grid, width, height, coord1, coord2), width, height)
  {
    var g := CarvedGrid(grid, width, height, coord1, coord2);
    CarvedCells(grid, width, height, coord1, coord2);
    BordersClosedOutward(grid, width, height);
    forall c, d | InBounds(c, width, height) && !InBounds(Move(c, d), width, height)
      ensures WallAt(g, width, height, c, d)
    {
      assert WallAt(grid, width, height, c, d);
    }
    BordersClosedOutward(g, width, height);
  }

  /** A carve only opens walls: every wall closed afterwards was closed before, and the shared edge is open on both sides. */
  lemma CarveNeverCloses(grid: Grid, width: int, height: int, coord1: Coord, coord2: Coord)
    requires WellFormed(grid, width, height)
    requires CarveCheck(width, height, coord1, coord2) == Pass
    ensures WellFormed(CarvedGrid(grid, width, height, coord1, coord2), width, height)
    ensures forall c, d :: (InBounds(c, width, height) &&
              WallAt(CarvedGrid(grid, width, height, coord1, coord2), width, height, c, d)) ==> WallAt(grid, width, height, c, d)
    ensures !WallAt(CarvedGrid(grid, width, height, coord1, coord2), width, height, coord1, DirectionBetween(coord1, coord2).value)
    ensures !WallAt(CarvedGrid(grid, width, height, coord1, coord2), width, height, coord2, DirOpposite(DirectionBetween(coord1, coord2).value))
  {
    CarvedCells(grid, width, height, coord1, coord2);
    MoveBack(coord1, DirectionBetween(coord1, coord2).value);
  }

  /** Carving the same pair twice is carving it once. */
  lemma CarveIdempotent(grid: Grid, width: int, height: int, coord1: Coord, coord2: Coord)
    requires WellFormed(grid, width, height)
    requires CarveCheck(width, height, coord1, coord2) == Pass
    ensures WellFormed(CarvedGrid(grid, width, height, coord1, coord2), width, height)
    ensures CarvedGrid(CarvedGrid(grid, width, height, coord1, coord2), width, height, coord1, coord2)
            == CarvedGrid(grid, width, height, coord1, coord2)
  {
    var d := DirectionBetween(coord1, coord2).value;
    var g := CarvedGrid(grid, width, height, coord1, coord2);
    CarvedGridMasks(grid, width, height, coord1, coord2);
    CarvedGridMasks(g, width, height, coord1, coord2);
    RemoveAWallIdempotent(grid[coord1.y][coord1.x], DirBitValue(d));
    RemoveAWallIdempotent(grid[coord2.y][coord2.x], DirBitValue(DirOpposite(d)));
    var gg := CarvedGrid(g, width, height, coord1, coord2);
    forall y | 0 <= y < height ensures gg[y] == g[y] {
      forall x | 0 <= x < width ensures gg[y][x] == g[y][x] {
        assert gg[y][x] == CarvedMask(g, width, height, coord1, coord2, Coord(x, y));
      }
    }
  }
}
