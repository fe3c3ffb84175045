/**
 * The maze as a directed graph, as both breadth-first searches read it: a
 * step leaves an in-grid cell through one of its open walls into an in-grid
 * neighbour that is not forbidden. Only the wall of the cell being left is
 * consulted, so on an incoherent grid a step need not be reversible.
 */
module MazeGraph {
  import opened Wrappers
  import opened Directions
  import opened MazeDefinitions
  import opened WallOperations

  /** One move of either search from u to v. */
  predicate Step(grid: Grid, width: int, height: int, forbidden: set<Coord>, u: Coord, v: Coord)
    requires WellFormed(grid, width, height)
  {
    && InBounds(u, width, height)
    && InBounds(v, width, height)
    && DirectionBetween(u, v).Some?
    && !WallAt(grid, width, height, u, DirectionBetween(u, v).value)
    && v !in forbidden
  }

  /** A non-empty sequence of cells, each a step from the one before. */
  ghost predicate IsWalk(grid: Grid, width: int, height: int, forbidden: set<Coord>, p: seq<Coord>)
    requires WellFormed(grid, width, height)
  {
    && |p| >= 1
    && forall i :: 0 <= i < |p| - 1 ==> Step(grid, width, height, forbidden, p[i], p[i + 1])
  }

  /** Some walk leads from s to t. */
  ghost predicate Reachable(grid: Grid, width: int, height: int, forbidden: set<Coord>, s: Coord, t: Coord)
    requires WellFormed(grid, width, height)
  {
    exists p :: IsWalk(grid, width, height, forbidden, p) && p[0] == s && p[|p| - 1] == t
  }

  /** No element of p occurs twice. */
  predicate Distinct<T(==)>(p: seq<T>)
  {
    forall i, j :: 0 <= i < j < |p| ==> p[i] != p[j]
  }

  /** Every cell of the grid. */
  ghost function AllCells(width: int, height: int): (r: set<Coord>)
    ensures forall c :: c in r <==> InBounds(c, width, height)
  {
    var r := set x, y | 0 <= x < width && 0 <= y < height :: Coord(x, y);
    assert forall c :: InBounds(c, width, height) ==> c == Coord(c.x, c.y) && c in r;
    r
  }

  /** The direction between a cell and its neighbour in direction d is d. */
  lemma DirectionBetweenMove(u: Coord, d: Direction)
    ensures DirectionBetween(u, Move(u, d)) == Some(d)
  {
    var r := DirectionBetween(u, Move(u, d));
    MoveDeltaUnit(d);
    assert r.Some?;
    assert Move(u, r.value) == Move(u, d);
    MoveDeltaInjective(r.value, d);
  }

  /** The step from u through side d is exactly what the searches test: bounds, open wall, not forbidden. */
  lemma StepMove(grid: Grid, width: int, height: int, forbidden: set<Coord>, u: Coord, d: Direction)
    requires WellFormed(grid, width, height) && InBounds(u, width, height)
    ensures Step(grid, width, height, forbidden, u, Move(u, d)) <==>
              (&& InBounds(Move(u, d), width, height)
               && !Closed(grid[u.y][u.x], d)
               && Move(u, d) !in forbidden)
  {
    DirectionBetweenMove(u, d);
  }

  /** Extending a walk by one step gives a walk. */
  lemma WalkExtend(grid: Grid, width: int, height: int, forbidden: set<Coord>, p: seq<Coord>, v: Coord)
    requires WellFormed(grid, width, height)
    requires IsWalk(grid, width, height, forbidden, p)
    requires Step(grid, width, height, forbidden, p[|p| - 1], v)
    ensures IsWalk(grid, width, height, forbidden, p + [v])
  {
    var q := p + [v];
    forall i | 0 <= i < |q| - 1 ensures Step(grid, width, height, forbidden, q[i], q[i + 1]) {
      if i < |p| - 1 {
        assert q[i] == p[i] && q[i + 1] == p[i + 1];
      }
    }
  }

  /** A prefix of a walk is a walk. */
  lemma WalkPrefix(grid: Grid, width: int, height: int, forbidden: set<Coord>, p: seq<Coord>, n: int)
    requires WellFormed(grid, width, height)
    requires IsWalk(grid, width, height, forbidden, p)
    requires 1 <= n <= |p|
    ensures IsWalk(grid, width, height, forbidden, p[..n])
  {
    var q := p[..n];
    forall i | 0 <= i < |q| - 1 ensures Step(grid, width, height, forbidden, q[i], q[i + 1]) {
      assert q[i] == p[i] && q[i + 1] == p[i + 1];
    }
  }

  /**
   * A walk that starts inside a visited set and ends outside it passes
   * through a visited cell that has not been expanded, provided every
   * expanded cell's successors are all visited.
   */
  lemma {:induction false} WalkLeavesThroughFrontier(grid: Grid, width: int, height: int, forbidden: set<Coord>,
                                                     visited: set<Coord>, processed: set<Coord>, p: seq<Coord>)
    requires WellFormed(grid, width, height)
    requires IsWalk(grid, width, height, forbidden, p)
    requires p[0] in visited && p[|p| - 1] !in visited
    requires forall u, v :: u in processed && Step(grid, width, height, forbidden, u, v) ==> v in visited
    ensures exists i :: 0 <= i < |p| && p[i] in visited && p[i] !in processed
    decreases |p|
  {
    var n := |p|;
    assert Step(grid, width, height, forbidden, p[n - 2], p[n - 1]);
    if p[n - 2] in visited {
      assert p[n - 2] !in processed;
    } else {
      WalkPrefix(grid, width, height, forbidden, p, n - 1);
      WalkLeavesThroughFrontier(grid, width, height, forbidden, visited, processed, p[..n - 1]);
      var i :| 0 <= i < n - 1 && p[..n - 1][i] in visited && p[..n - 1][i] !in processed;
      assert p[i] == p[..n - 1][i];
    }
  }

  /** Once every visited cell is expanded, nothing outside the visited set is reachable from inside it. */
  lemma ClosedSetUnreachable(grid: Grid, width: int, height: int, forbidden: set<Coord>,
                             visited: set<Coord>, s: Coord, t: Coord)
    requires WellFormed(grid, width, height)
    requires s in visited && t !in visited
    requires forall u, v :: u in visited && Step(grid, width, height, forbidden, u, v) ==> v in visited
    ensures !Reachable(grid, width, height, forbidden, s, t)
  {
    if Reachable(grid, width, height, forbidden, s, t) {
      var p :| IsWalk(grid, width, height, forbidden, p) && p[0] == s && p[|p| - 1] == t;
      WalkLeavesThroughFrontier(grid, width, height, forbidden, visited, visited, p);
    }
  }
}
