/**
 * The three sanity checks on a maze: wall coherence between neighbours,
 * closed outer borders, and a breadth-first pass over the cells the entry
 * reaches. None of them changes the maze.
 */
module Validators {
  import opened Wrappers
  import opened Directions
  import opened MazeDefinitions
  import opened WallOperations
  import opened MazeGraph

  /** check_shared_wall: side d of c against side o of its neighbour n; both closed or both open. */
  function CheckSharedWall(grid: Grid, width: int, height: int, c: Coord, d: Direction, n: Coord, o: Direction): (r: Outcome<MazeError>)
    requires WellFormed(grid, width, height) && InBounds(c, width, height) && InBounds(n, width, height)
    ensures r.Pass? <==> WallAt(grid, width, height, c, d) == WallAt(grid, width, height, n, o)
    ensures r.Fail? ==> r.error == WallMismatch(c, d, n, o)
  {
    if IsItSolidWall(grid[c.y][c.x], DirBitValue(d)) != IsItSolidWall(grid[n.y][n.x], DirBitValue(o)) then
      Fail(WallMismatch(c, d, n, o))
    else Pass
  }

  /** The two comparisons wall_validator makes for one cell: E against the right neighbour's W, S against the lower neighbour's N. */
  ghost predicate CellCoherent(grid: Grid, width: int, height: int, c: Coord)
    requires WellFormed(grid, width, height) && InBounds(c, width, height)
  {
    && (c.x + 1 < width ==> WallAt(grid, width, height, c, E) == WallAt(grid, width, height, Coord(c.x + 1, c.y), W))
    && (c.y + 1 < height ==> WallAt(grid, width, height, c, S) == WallAt(grid, width, height, Coord(c.x, c.y + 1), N))
  }

  /** c comes at or after (x, y) in the row-major scan. */
  predicate AtOrAfter(c: Coord, x: int, y: int)
  {
    c.y > y || (c.y == y && c.x >= x)
  }

  /** A mismatch wall_validator may report: an E/W or S/N pair of neighbours whose shared walls disagree. */
  ghost predicate IsWallMismatch(grid: Grid, width: int, height: int, e: MazeError)
    requires WellFormed(grid, width, height)
  {
    && e.WallMismatch?
    && InBounds(e.cell, width, height)
    && ((e.direction == E && e.opposite == W && e.neighbor == Coord(e.cell.x + 1, e.cell.y))
        || (e.direction == S && e.opposite == N && e.neighbor == Coord(e.cell.x, e.cell.y + 1)))
    && InBounds(e.neighbor, width, height)
    && WallAt(grid, width, height, e.cell, e.direction) != WallAt(grid, width, height, e.neighbor, e.opposite)
  }

  /** The checks of one cell, E before S. */
  function CheckCell(grid: Grid, width: int, height: int, c: Coord): (r: Outcome<MazeError>)
    requires WellFormed(grid, width, height) && InBounds(c, width, height)
    ensures r.Pass? <==> CellCoherent(grid, width, height, c)
    ensures r.Fail? ==> IsWallMismatch(grid, width, height, r.error) && r.error.cell == c
    ensures r.Fail? && r.error.direction == S ==>
              (c.x + 1 < width ==> WallAt(grid, width, height, c, E) == WallAt(grid, width, height, Coord(c.x + 1, c.y), W))
  {
    var east := if c.x + 1 < width then CheckSharedWall(grid, width, height, c, E, Coord(c.x + 1, c.y), W) else Pass;
    if east.Fail? then east
    else if c.y + 1 < height then CheckSharedWall(grid, width, height, c, S, Coord(c.x, c.y + 1), N)
    else Pass
  }

  /** The scan of wall_validator from cell (x, y) on, rows top to bottom and each row left to right. */
  function WallScan(grid: Grid, width: int, height: int, x: int, y: int): (r: Outcome<MazeError>)
    requires WellFormed(grid, width, height)
    requires 0 <= x <= width && 0 <= y
    ensures r.Pass? <==> forall c :: InBounds(c, width, height) && AtOrAfter(c, x, y) ==> CellCoherent(grid, width, height, c)
    ensures r.Fail? ==> && IsWallMismatch(grid, width, height, r.error)
                        && AtOrAfter(r.error.cell, x, y)
                        && (forall c :: InBounds(c, width, height) && AtOrAfter(c, x, y) && !AtOrAfter(c, r.error.cell.x, r.error.cell.y)
                              ==> CellCoherent(grid, width, height, c))
    ensures r.Fail? && r.error.direction == S && r.error.cell.x + 1 < width ==>
              WallAt(grid, width, height, r.error.cell, E) == WallAt(grid, width, height, Coord(r.error.cell.x + 1, r.error.cell.y), W)
    decreases height - y, width - x
  {
    if y >= height then Pass
    else if x == width then
      var r := WallScan(grid, width, height, 0, y + 1);
      assert forall c :: InBounds(c, width, height) ==> (AtOrAfter(c, x, y) <==> AtOrAfter(c, 0, y + 1));
      r
    else
      var here := CheckCell(grid, width, height, Coord(x, y));
      if here.Fail? then here
      else
        var r := WallScan(grid, width, height, x + 1, y);
        assert forall c :: AtOrAfter(c, x, y) <==> (c == Coord(x, y) || AtOrAfter(c, x + 1, y));
        r
  }

  /** The scan from the first cell covers every cell, so it passes exactly on a coherent grid. */
  lemma WallScanFromStart(grid: Grid, width: int, height: int)
    requires WellFormed(grid, width, height) && width >= 0
    ensures WallScan(grid, width, height, 0, 0).Pass? <==> WallsCoherent(grid, width, height)
  {
    var r := WallScan(grid, width, height, 0, 0);
    assert forall c :: InBounds(c, width, height) ==> AtOrAfter(c, 0, 0);
    if r.Pass? {
      assert forall c :: InBounds(c, width, height) ==> CellCoherent(grid, width, height, c);
    }
    if WallsCoherent(grid, width, height) {
      forall c | InBounds(c, width, height) ensures CellCoherent(grid, width, height, c) {
      }
    }
  }

  /** wall_validator: Pass exactly on a coherent grid; otherwise the first mismatch in scan order. */
  function WallValidator(maze: Maze): (r: Outcome<MazeError>)
    reads maze
    requires maze.Valid()
    ensures r.Pass? <==> WallsCoherent(maze.grid, maze.width, maze.height)
    ensures r.Fail? ==> IsWallMismatch(maze.grid, maze.width, maze.height, r.error)
    ensures r.Fail? ==> forall c :: InBounds(c, maze.width, maze.height) && !AtOrAfter(c, r.error.cell.x, r.error.cell.y)
                                    ==> CellCoherent(maze.grid, maze.width, maze.height, c)
    ensures r.Fail? && r.error.direction == S && r.error.cell.x + 1 < maze.width ==>
              WallAt(maze.grid, maze.width, maze.height, r.error.cell, E)
                == WallAt(maze.grid, maze.width, maze.height, Coord(r.error.cell.x + 1, r.error.cell.y), W)
  {
    WallScanFromStart(maze.grid, maze.width, maze.height);
    WallScan(maze.grid, maze.width, maze.height, 0, 0)
  }

  /** The cells closed_borders_validator visits for side d: the top row for N, the left column for W, the bottom row for S, the right column for E. */
  function BorderCell(width: int, height: int, d: Direction, k: int): Coord
  {
    match d
    case N => Coord(k, 0)
    case W => Coord(0, k)
    case S => Coord(k, height - 1)
    case E => Coord(width - 1, k)
  }

  /** How many cells the border of side d has. */
  function BorderLength(width: int, height: int, d: Direction): int
  {
    if d == N || d == S then width else height
  }

  /** Side d of every cell on its border, from index k on, is closed. */
  ghost predicate BorderClosedFrom(grid: Grid, width: int, height: int, d: Direction, k: int)
    requires WellFormed(grid, width, height) && width > 0 && height > 0
  {
    forall j :: k <= j < BorderLength(width, height, d) && 0 <= j ==> WallAt(grid, width, height, BorderCell(width, height, d, j), d)
  }

  /** One of the four loops of closed_borders_validator, from index k on. */
  function BorderScan(grid: Grid, width: int, height: int, d: Direction, k: nat): (r: Outcome<MazeError>)
    requires WellFormed(grid, width, height) && width > 0 && height > 0
    ensures r.Pass? <==> BorderClosedFrom(grid, width, height, d, k)
    ensures r.Fail? ==> exists j :: && k <= j < BorderLength(width, height, d)
                                    && r.error == OpenBorderWall(d, BorderCell(width, height, d, j))
                                    && !WallAt(grid, width, height, BorderCell(width, height, d, j), d)
                                    && forall i :: k <= i < j ==> WallAt(grid, width, height, BorderCell(width, height, d, i), d)
    decreases BorderLength(width, height, d) - k
  {
    if k >= BorderLength(width, height, d) then Pass
    else
      var c := BorderCell(width, height, d, k);
      if !IsItSolidWall(grid[c.y][c.x], DirBitValue(d)) then Fail(OpenBorderWall(d, c))
      else BorderScan(grid, width, height, d, k + 1)
  }

  /** closed_borders_validator: Pass exactly when every outward wall is closed; otherwise the first open one, sides checked N, W, S, E. */
  function ClosedBordersValidator(maze: Maze): (r: Outcome<MazeError>)
    reads maze
    requires maze.Valid()
    ensures r.Pass? <==> BordersClosed(maze.grid, maze.width, maze.height)
    ensures r.Fail? ==> && r.error.OpenBorderWall?
                        && InBounds(r.error.coord, maze.width, maze.height)
                        && !InBounds(Move(r.error.coord, r.error.direction), maze.width, maze.height)
                        && !WallAt(maze.grid, maze.width, maze.height, r.error.coord, r.error.direction)
    ensures r.Fail? && r.error.direction != N ==> BorderClosedFrom(maze.grid, maze.width, maze.height, N, 0)
    ensures r.Fail? && r.error.direction in {S, E} ==> BorderClosedFrom(maze.grid, maze.width, maze.height, W, 0)
    ensures r.Fail? && r.error.direction == E ==> BorderClosedFrom(maze.grid, maze.width, maze.height, S, 0)
    ensures r.Fail? ==> exists j :: && 0 <= j < BorderLength(maze.width, maze.height, r.error.direction)
                                    && r.error.coord == BorderCell(maze.width, maze.height, r.error.direction, j)
                                    && forall i :: 0 <= i < j ==>
                                         WallAt(maze.grid, maze.width, maze.height, BorderCell(maze.width, maze.height, r.error.direction, i), r.error.direction)
  {
    var g, w, h := maze.grid, maze.width, maze.height;
    var top := BorderScan(g, w, h, N, 0);
    var left := BorderScan(g, w, h, W, 0);
    var bottom := BorderScan(g, w, h, S, 0);
    var right := BorderScan(g, w, h, E, 0);
    var r := if top.Fail? then top else if left.Fail? then left else if bottom.Fail? then bottom else right;
    BordersAsScans(g, w, h);
    r
  }

  /** The four border loops together check exactly the closed-borders property. */
  lemma BordersAsScans(grid: Grid, width: int, height: int)
    requires WellFormed(grid, width, height) && width > 0 && height > 0
    ensures BordersClosed(grid, width, height) <==>
              && BorderClosedFrom(grid, width, height, N, 0) && BorderClosedFrom(grid, width, height, W, 0)
              && BorderClosedFrom(grid, width, height, S, 0) && BorderClosedFrom(grid, width, height, E, 0)
  {
    if BordersClosed(grid, width, height) {
      forall d, j | 0 <= j < BorderLength(width, height, d)
        ensures WallAt(grid, width, height, BorderCell(width, height, d, j), d)
      {
        var c := BorderCell(width, height, d, j);
        assert InBounds(c, width, height);
      }
    }
    if && BorderClosedFrom(grid, width, height, N, 0) && BorderClosedFrom(grid, width, height, W, 0)
       && BorderClosedFrom(grid, width, height, S, 0) && BorderClosedFrom(grid, width, height, E, 0)
    {
      forall c | InBounds(c, width, height)
        ensures c.y == 0 ==> WallAt(grid, width, height, c, N)
        ensures c.x == 0 ==> WallAt(grid, width, height, c, W)
        ensures c.y == height - 1 ==> WallAt(grid, width, height, c, S)
        ensures c.x == width - 1 ==> WallAt(grid, width, height, c, E)
      {
        assert c.y == 0 ==> c == BorderCell(width, height, N, c.x);
        assert c.x == 0 ==> c == BorderCell(width, height, W, c.y);
        assert c.y == height - 1 ==> c == BorderCell(width, height, S, c.x);
        assert c.x == width - 1 ==> c == BorderCell(width, height, E, c.y);
      }
    }
  }

  /** A freshly built maze, every cell 15, passes both wall checks. */
  lemma FreshMazePassesWallChecks(width: nat, height: nat)
    requires width > 0 && height > 0
    ensures WallsCoherent(AllClosed(width, height), width, height)
    ensures BordersClosed(AllClosed(width, height), width, height)
  {
    var g := AllClosed(width, height);
    forall c, d | InBounds(c, width, height) ensures WallAt(g, width, height, c, d) {
      AllWallsOfClosed(d);
    }
  }

  /**
   * What holds between iterations of bfs_connection_validator: the visited
   * list starts at the entry and repeats no cell; each visited cell lies in
   * the grid and is reached by a recorded walk; the queue holds exactly the
   * visited cells not yet expanded, once each; and every successor of an
   * expanded cell is visited.
   */
  ghost predicate ConnectionState(grid: Grid, width: int, height: int, forbidden: set<Coord>, entry: Coord,
                                  visited: seq<Coord>, queue: seq<Coord>, processed: set<Coord>,
                                  walks: map<Coord, seq<Coord>>)
    requires WellFormed(grid, width, height)
  {
    && |visited| >= 1 && visited[0] == entry
    && Distinct(visited)
    && (forall v :: v in visited ==> InBounds(v, width, height) && v in walks)
    && (forall v {:trigger walks[v]} :: v in visited && v in walks ==>
          && IsWalk(grid, width, height, forbidden, walks[v])
          && walks[v][0] == entry && walks[v][|walks[v]| - 1] == v)
    && (forall v :: v in processed ==> v in visited)
    && (forall v :: v in queue <==> v in visited && v !in processed)
    && Distinct(queue)
    && (forall u, v :: u in processed && Step(grid, width, height, forbidden, u, v) ==> v in visited)
  }

  /** Appending an unvisited successor of the queue head to both lists keeps the state. */
  lemma ConnectionPush(grid: Grid, width: int, height: int, forbidden: set<Coord>, entry: Coord,
                       visited: seq<Coord>, queue: seq<Coord>, processed: set<Coord>, walks: map<Coord, seq<Coord>>, n: Coord)
    requires WellFormed(grid, width, height)
    requires ConnectionState(grid, width, height, forbidden, entry, visited, queue, processed, walks)
    requires |queue| > 0 && Step(grid, width, height, forbidden, queue[0], n) && n !in visited
    ensures ConnectionState(grid, width, height, forbidden, entry, visited + [n], queue + [n], processed,
                            walks[n := walks[queue[0]] + [n]])
  {
    var u := queue[0];
    assert u in visited;
    WalkExtend(grid, width, height, forbidden, walks[u], n);
    var visited', queue', walks' := visited + [n], queue + [n], walks[n := walks[u] + [n]];
    assert forall v :: v in visited' <==> v in visited || v == n;
    assert forall v :: v in queue' <==> v in queue || v == n;
    assert Distinct(visited') by {
      forall i, j | 0 <= i < j < |visited'| ensures visited'[i] != visited'[j] {
        if j < |visited| {
          assert visited'[i] == visited[i] && visited'[j] == visited[j];
        } else {
          assert visited'[i] == visited[i];
        }
      }
    }
    assert Distinct(queue') by {
      forall i, j | 0 <= i < j < |queue'| ensures queue'[i] != queue'[j] {
        if j < |queue| {
          assert queue'[i] == queue[i] && queue'[j] == queue[j];
        } else {
          assert queue'[i] == queue[i] && queue[i] in visited;
        }
      }
    }
    forall v {:trigger walks'[v]} | v in visited' && v in walks'
      ensures IsWalk(grid, width, height, forbidden, walks'[v]) && walks'[v][0] == entry && walks'[v][|walks'[v]| - 1] == v
    {
      if v != n {
        assert walks'[v] == walks[v];
      }
    }
  }

  /** Dropping the queue head once its successors are all visited keeps the state. */
  lemma ConnectionPop(grid: Grid, width: int, height: int, forbidden: set<Coord>, entry: Coord,
                      visited: seq<Coord>, queue: seq<Coord>, processed: set<Coord>, walks: map<Coord, seq<Coord>>)
    requires WellFormed(grid, width, height)
    requires ConnectionState(grid, width, height, forbidden, entry, visited, queue, processed, walks)
    requires |queue| > 0
    requires forall d :: Step(grid, width, height, forbidden, queue[0], Move(queue[0], d)) ==> Move(queue[0], d) in visited
    ensures ConnectionState(grid, width, height, forbidden, entry, visited, queue[1..], processed + {queue[0]}, walks)
  {
    var current := queue[0];
    var processed' := processed + {current};
    forall u, v | u in processed' && Step(grid, width, height, forbidden, u, v) ensures v in visited {
      if u == current {
        var d := DirectionBetween(current, v).value;
        assert Move(current, d) == v;
      }
    }
    forall v ensures v in queue[1..] <==> v in visited && v !in processed' {
      if v in queue[1..] {
        var i :| 1 <= i < |queue| && queue[i] == v;
        assert queue[0] != queue[i];
      }
      assert v in queue ==> v == queue[0] || v in queue[1..];
    }
    assert Distinct(queue[1..]) by {
      forall i, j | 0 <= i < j < |queue| - 1 ensures queue[1..][i] != queue[1..][j] {
        assert queue[1..][i] == queue[i + 1] && queue[1..][j] == queue[j + 1];
      }
    }
  }

  /** One of the four neighbour checks: append the neighbour through side d when `open` and it is new and allowed. */
  method VisitNeighbour(maze: Maze, forbidden: set<Coord>, current: Coord, d: Direction, open: bool,
                        visited: seq<Coord>, queue: seq<Coord>, ghost processed: set<Coord>, ghost walks: map<Coord, seq<Coord>>)
    returns (visited': seq<Coord>, queue': seq<Coord>, ghost walks': map<Coord, seq<Coord>>)
    requires maze.Valid()
    requires ConnectionState(maze.grid, maze.width, maze.height, forbidden, maze.entry, visited, queue, processed, walks)
    requires |queue| > 0 && queue[0] == current && InBounds(current, maze.width, maze.height)
    requires open == (InBounds(Move(current, d), maze.width, maze.height) && !Closed(maze.grid[current.y][current.x], d))
    ensures ConnectionState(maze.grid, maze.width, maze.height, forbidden, maze.entry, visited', queue', processed, walks')
    ensures |queue'| > 0 && queue'[0] == current
    ensures forall v :: v in visited ==> v in visited'
    ensures Step(maze.grid, maze.width, maze.height, forbidden, current, Move(current, d)) ==> Move(current, d) in visited'
  {
    visited', queue', walks' := visited, queue, walks;
    StepMove(maze.grid, maze.width, maze.height, forbidden, current, d);
    var neighbor := Move(current, d);
    if open && neighbor !in visited && neighbor !in forbidden {
      ConnectionPush(maze.grid, maze.width, maze.height, forbidden, maze.entry, visited, queue, processed, walks, neighbor);
      visited' := visited + [neighbor];
      queue' := queue + [neighbor];
      walks' := walks[neighbor := walks[current] + [neighbor]];
    }
  }

  /** Two consecutive neighbour checks of the search loop, through sides d1 and then d2 of the current cell. */
  method VisitTwo(maze: Maze, forbidden: set<Coord>, current: Coord, d1: Direction, d2: Direction,
                  visited: seq<Coord>, queue: seq<Coord>, ghost processed: set<Coord>, ghost walks: map<Coord, seq<Coord>>)
    returns (visited': seq<Coord>, queue': seq<Coord>, ghost walks': map<Coord, seq<Coord>>)
    requires maze.Valid()
    requires ConnectionState(maze.grid, maze.width, maze.height, forbidden, maze.entry, visited, queue, processed, walks)
    requires |queue| > 0 && queue[0] == current
    ensures ConnectionState(maze.grid, maze.width, maze.height, forbidden, maze.entry, visited', queue', processed, walks')
    ensures |queue'| > 0 && queue'[0] == current
    ensures forall v :: v in visited ==> v in visited'
    ensures Step(maze.grid, maze.width, maze.height, forbidden, current, Move(current, d1)) ==> Move(current, d1) in visited'
    ensures Step(maze.grid, maze.width, maze.height, forbidden, current, Move(current, d2)) ==> Move(current, d2) in visited'
  {
    assert current in visited;
    var x, y := current.x, current.y;
    var next1, next2 := Move(current, d1), Move(current, d2);
    var wall1 := IsItSolidWall(maze.grid[y][x], DirBitValue(d1));
    var wall2 := IsItSolidWall(maze.grid[y][x], DirBitValue(d2));
    var open1 := 0 <= next1.x < maze.width && 0 <= next1.y < maze.height && !wall1;
    var open2 := 0 <= next2.x < maze.width && 0 <= next2.y < maze.height && !wall2;
    assert wall1 == Closed(maze.grid[y][x], d1) && wall2 == Closed(maze.grid[y][x], d2);
    visited', queue', walks' := VisitNeighbour(maze, forbidden, current, d1, open1, visited, queue, processed, walks);
    ghost var v1 := visited';
    assert Step(maze.grid, maze.width, maze.height, forbidden, current, next1) ==> next1 in v1;
    visited', queue', walks' := VisitNeighbour(maze, forbidden, current, d2, open2, visited', queue', processed, walks');
  }

  /**
   * The body of the search loop for one cell: the four neighbour checks in
   * the order N, E, S, W. Each check's bound test, y - 1 >= 0 for the north
   * side and so on, is the neighbour's bound test.
   */
  method VisitNeighbours(maze: Maze, forbidden: set<Coord>, current: Coord,
                         visited: seq<Coord>, queue: seq<Coord>, ghost processed: set<Coord>, ghost walks: map<Coord, seq<Coord>>)
    returns (visited': seq<Coord>, queue': seq<Coord>, ghost walks': map<Coord, seq<Coord>>)
    requires maze.Valid()
    requires ConnectionState(maze.grid, maze.width, maze.height, forbidden, maze.entry, visited, queue, processed, walks)
    requires |queue| > 0 && queue[0] == current
    ensures ConnectionState(maze.grid, maze.width, maze.height, forbidden, maze.entry, visited', queue', processed, walks')
    ensures |queue'| > 0 && queue'[0] == current
    ensures forall d :: Step(maze.grid, maze.width, maze.height, forbidden, current, Move(current, d)) ==> Move(current, d) in visited'
  {
    ghost var g, w, h := maze.grid, maze.width, maze.height;
    visited', queue', walks' := VisitTwo(maze, forbidden, current, N, E, visited, queue, processed, walks);
    ghost var v1 := visited';
    visited', queue', walks' := VisitTwo(maze, forbidden, current, S, W, visited', queue', processed, walks');
    forall d ensures Step(g, w, h, forbidden, current, Move(current, d)) ==> Move(current, d) in visited' {
      if d == N || d == E {
        assert Step(g, w, h, forbidden, current, Move(current, d)) ==> Move(current, d) in v1;
      }
    }
  }

  /**
   * bfs_connection_validator: breadth-first search from the entry over
   * open walls, avoiding forbidden cells. It never reports an error; the
   * visited list it builds, which the source discards, holds every cell
   * reachable from the entry exactly once, the entry first.
   */
  method BfsConnectionValidator(maze: Maze, forbidden: set<Coord>) returns (visited: seq<Coord>)
    requires maze.Valid()
    ensures |visited| >= 1 && visited[0] == maze.entry && Distinct(visited)
    ensures forall v :: v in visited <==> Reachable(maze.grid, maze.width, maze.height, forbidden, maze.entry, v)
  {
    ghost var grid, width, height, entry := maze.grid, maze.width, maze.height, maze.entry;
    visited := [maze.entry];
    var queue := [maze.entry];
    ghost var processed: set<Coord> := {};
    ghost var walks: map<Coord, seq<Coord>> := map[maze.entry := [maze.entry]];
    while |queue| != 0
      invariant ConnectionState(grid, width, height, forbidden, entry, visited, queue, processed, walks)
      decreases AllCells(width, height) - processed
    {
      var current := queue[0];
      assert current in visited;
      visited, queue, walks := VisitNeighbours(maze, forbidden, current, visited, queue, processed, walks);
      ConnectionPop(grid, width, height, forbidden, entry, visited, queue, processed, walks);
      processed := processed + {current};
      queue := queue[1..];
    }
    ConnectionComplete(grid, width, height, forbidden, entry, visited, processed, walks);
  }

  /** When the queue is empty, the visited list is exactly the reachable cells. */
  lemma ConnectionComplete(grid: Grid, width: int, height: int, forbidden: set<Coord>, entry: Coord,
                           visited: seq<Coord>, processed: set<Coord>, walks: map<Coord, seq<Coord>>)
    requires WellFormed(grid, width, height)
    requires ConnectionState(grid, width, height, forbidden, entry, visited, [], processed, walks)
    ensures forall v :: v in visited <==> Reachable(grid, width, height, forbidden, entry, v)
  {
    forall v ensures v in visited <==> Reachable(grid, width, height, forbidden, entry, v) {
      if v in visited {
        assert IsWalk(grid, width, height, forbidden, walks[v]) && walks[v][0] == entry && walks[v][|walks[v]| - 1] == v;
      } else {
        ClosedSetUnreachable(grid, width, height, forbidden, (set u | u in visited), entry, v);
      }
    }
  }
}
