/**
 * multiple_path_maze: turn a perfect maze into one with loops by opening a
 * number of extra walls. Candidates are the closed east and south walls
 * between two cells that are not forbidden; a target number of them, scaled
 * to the maze's area and clamped to the candidates available, is picked at
 * random without replacement and carved.
 */
module MultiplePathMaze {
  import opened Wrappers
  import opened Bits
  import opened Directions
  import opened MazeDefinitions
  import opened WallOperations
  import opened MazeGraph

  /** A wall that may be carved: from cell toward its east or south neighbour. */
  datatype Candidate = Candidate(cell: Coord, neighbour: Coord, direction: Direction)

  /** check_neighbor_pair: the wall on side d of coord1 is closed. */
  predicate CheckNeighborPair(maze: Maze, coord1: Coord, d: Direction)
    reads maze
    requires maze.Valid() && InBounds(coord1, maze.width, maze.height)
    ensures CheckNeighborPair(maze, coord1, d) <==> TestBit(maze.grid[coord1.y][coord1.x], BitIndex(d))
  {
    ClosedIsBit(maze.grid[coord1.y][coord1.x], d);
    IsItSolidWall(maze.grid[coord1.y][coord1.x], DirBitValue(d))
  }

  /** What makes a candidate: an east or south step within the grid, its wall closed on the first cell, neither cell forbidden. */
  predicate IsCandidate(grid: Grid, width: int, height: int, forbidden: set<Coord>, c: Candidate)
    requires WellFormed(grid, width, height)
  {
    && (c.direction == E || c.direction == S)
    && InBounds(c.cell, width, height)
    && c.neighbour == Move(c.cell, c.direction)
    && InBounds(c.neighbour, width, height)
    && WallAt(grid, width, height, c.cell, c.direction)
    && c.cell !in forbidden
    && c.neighbour !in forbidden
  }

  /** The candidates the scan appends for the cell (x, y): east first, then south. */
  function CellCandidates(grid: Grid, width: int, height: int, forbidden: set<Coord>, x: int, y: int): seq<Candidate>
    requires WellFormed(grid, width, height) && 0 <= x < width && 0 <= y < height
  {
    var c := Coord(x, y);
    (if x + 1 < width && WallAt(grid, width, height, c, E) && c !in forbidden && Coord(x + 1, y) !in forbidden
     then [Candidate(c, Coord(x + 1, y), E)] else [])
    + (if y + 1 < height && WallAt(grid, width, height, c, S) && c !in forbidden && Coord(x, y + 1) !in forbidden
       then [Candidate(c, Coord(x, y + 1), S)] else [])
  }

  /** The lists of a list of lists, joined in order. */
  function Flatten<T>(ss: seq<seq<T>>): seq<T>
    decreases |ss|
  {
    if ss == [] then [] else Flatten(ss[..|ss| - 1]) + ss[|ss| - 1]
  }

  /** Joining one more list appends it. */
  lemma FlattenSnoc<T>(ss: seq<seq<T>>, k: int)
    requires 0 <= k < |ss|
    ensures Flatten(ss[..k + 1]) == Flatten(ss[..k]) + ss[k]
  {
    assert ss[..k + 1][..k] == ss[..k];
  }

  /** An element of the joined list is an element of one of the lists. */
  lemma {:induction false} FlattenMember<T>(ss: seq<seq<T>>, t: T)
    ensures t in Flatten(ss) <==> exists i :: 0 <= i < |ss| && t in ss[i]
    decreases |ss|
  {
    if ss != [] {
      var front := ss[..|ss| - 1];
      FlattenMember(front, t);
      assert forall i :: 0 <= i < |front| ==> front[i] == ss[i];
      if t in ss[|ss| - 1] {
        assert exists i :: 0 <= i < |ss| && t in ss[i];
      }
    }
  }

  /** Duplicate-free lists that share no element join to a duplicate-free list. */
  lemma {:induction false} FlattenDistinct<T>(ss: seq<seq<T>>)
    requires forall i :: 0 <= i < |ss| ==> Distinct(ss[i])
    requires forall i, j, t :: 0 <= i < j < |ss| && t in ss[i] ==> t !in ss[j]
    ensures Distinct(Flatten(ss))
    decreases |ss|
  {
    if ss != [] {
      var front := ss[..|ss| - 1];
      var last := ss[|ss| - 1];
      assert forall i :: 0 <= i < |front| ==> front[i] == ss[i];
      FlattenDistinct(front);
      forall t | t in Flatten(front) ensures t !in last {
        FlattenMember(front, t);
      }
      DistinctConcat(Flatten(front), last);
    }
  }

  /** The candidates of each cell of row y, one list per cell, left to right. */
  function RowCells(grid: Grid, width: int, height: int, forbidden: set<Coord>, y: int): (r: seq<seq<Candidate>>)
    requires WellFormed(grid, width, height) && 0 <= y < height
    ensures |r| == width
    ensures forall x :: 0 <= x < width ==> r[x] == CellCandidates(grid, width, height, forbidden, x, y)
  {
    assert |grid[y]| == width;
    seq(width, x requires 0 <= x < width => CellCandidates(grid, width, height, forbidden, x, y))
  }

  /** The candidates of each row, top to bottom. */
  function Rows(grid: Grid, width: int, height: int, forbidden: set<Coord>): (r: seq<seq<Candidate>>)
    requires WellFormed(grid, width, height)
    ensures |r| == height
    ensures forall y :: 0 <= y < height ==> r[y] == Flatten(RowCells(grid, width, height, forbidden, y))
  {
    seq(height, y requires 0 <= y < height => Flatten(RowCells(grid, width, height, forbidden, y)))
  }

  /** The list the scan over the whole grid builds: row by row, each cell's east candidate, then its south one. */
  function Candidates(grid: Grid, width: int, height: int, forbidden: set<Coord>): seq<Candidate>
    requires WellFormed(grid, width, height)
  {
    Flatten(Rows(grid, width, height, forbidden))
  }

  lemma CellCandidatesMember(grid: Grid, width: int, height: int, forbidden: set<Coord>, x: int, y: int, c: Candidate)
    requires WellFormed(grid, width, height) && 0 <= x < width && 0 <= y < height
    ensures c in CellCandidates(grid, width, height, forbidden, x, y) <==>
              IsCandidate(grid, width, height, forbidden, c) && c.cell == Coord(x, y)
  {
    var cell := Coord(x, y);
    var okE := x + 1 < width && WallAt(grid, width, height, cell, E) && cell !in forbidden && Coord(x + 1, y) !in forbidden;
    var okS := y + 1 < height && WallAt(grid, width, height, cell, S) && cell !in forbidden && Coord(x, y + 1) !in forbidden;
    var east := if okE then [Candidate(cell, Coord(x + 1, y), E)] else [];
    var south := if okS then [Candidate(cell, Coord(x, y + 1), S)] else [];
    assert CellCandidates(grid, width, height, forbidden, x, y) == east + south;
    assert c in east + south <==> c in east || c in south;
    if c.cell == cell && c.direction == E {
      assert Move(cell, E) == Coord(x + 1, y);
      assert c !in south;
    } else if c.cell == cell && c.direction == S {
      assert Move(cell, S) == Coord(x, y + 1);
      assert c !in east;
    } else {
      assert c !in east && c !in south;
    }
  }

  /** A row's candidates are the candidates whose first cell lies in that row; none is listed twice. */
  lemma RowMember(grid: Grid, width: int, height: int, forbidden: set<Coord>, y: int, c: Candidate)
    requires WellFormed(grid, width, height) && 0 <= y < height
    ensures c in Flatten(RowCells(grid, width, height, forbidden, y)) <==>
              IsCandidate(grid, width, height, forbidden, c) && c.cell.y == y
  {
    var cells := RowCells(grid, width, height, forbidden, y);
    FlattenMember(cells, c);
    if IsCandidate(grid, width, height, forbidden, c) && c.cell.y == y {
      CellCandidatesMember(grid, width, height, forbidden, c.cell.x, y, c);
      assert c in cells[c.cell.x];
    }
    if c in Flatten(cells) {
      var x :| 0 <= x < |cells| && c in cells[x];
      CellCandidatesMember(grid, width, height, forbidden, x, y, c);
    }
  }

  lemma RowDistinct(grid: Grid, width: int, height: int, forbidden: set<Coord>, y: int)
    requires WellFormed(grid, width, height) && 0 <= y < height
    ensures Distinct(Flatten(RowCells(grid, width, height, forbidden, y)))
  {
    var cells := RowCells(grid, width, height, forbidden, y);
    forall i, j, t | 0 <= i < j < |cells| && t in cells[i] ensures t !in cells[j] {
      CellCandidatesMember(grid, width, height, forbidden, i, y, t);
      CellCandidatesMember(grid, width, height, forbidden, j, y, t);
    }
    FlattenDistinct(cells);
  }

  /** Two duplicate-free lists with no common element concatenate to a duplicate-free list. */
  lemma DistinctConcat<T>(a: seq<T>, b: seq<T>)
    requires Distinct(a) && Distinct(b)
    requires forall t :: t in a ==> t !in b
    ensures Distinct(a + b)
  {
    forall i, j | 0 <= i < j < |a + b| ensures (a + b)[i] != (a + b)[j] {
      if j < |a| {
        assert (a + b)[i] == a[i] && (a + b)[j] == a[j];
      } else if i >= |a| {
        assert (a + b)[i] == b[i - |a|] && (a + b)[j] == b[j - |a|];
      } else {
        assert (a + b)[i] == a[i] && (a + b)[j] == b[j - |a|];
        assert a[i] in a;
      }
    }
  }

  /** The scan yields exactly the candidates, each once. */
  lemma CandidatesExactly(grid: Grid, width: int, height: int, forbidden: set<Coord>)
    requires WellFormed(grid, width, height)
    ensures forall c :: c in Candidates(grid, width, height, forbidden) <==> IsCandidate(grid, width, height, forbidden, c)
    ensures Distinct(Candidates(grid, width, height, forbidden))
  {
    var rows := Rows(grid, width, height, forbidden);
    forall c ensures c in Candidates(grid, width, height, forbidden) <==> IsCandidate(grid, width, height, forbidden, c) {
      FlattenMember(rows, c);
      if IsCandidate(grid, width, height, forbidden, c) {
        RowMember(grid, width, height, forbidden, c.cell.y, c);
        assert c in rows[c.cell.y];
      }
      if c in Flatten(rows) {
        var y :| 0 <= y < |rows| && c in rows[y];
        RowMember(grid, width, height, forbidden, y, c);
      }
    }
    forall y | 0 <= y < |rows| ensures Distinct(rows[y]) {
      RowDistinct(grid, width, height, forbidden, y);
    }
    forall i, j, t | 0 <= i < j < |rows| && t in rows[i] ensures t !in rows[j] {
      RowMember(grid, width, height, forbidden, i, t);
      RowMember(grid, width, height, forbidden, j, t);
    }
    FlattenDistinct(rows);
  }

  /** No two entries of the candidate list name the same wall, in either orientation. */
  lemma CandidatesUnordered(grid: Grid, width: int, height: int, forbidden: set<Coord>)
    requires WellFormed(grid, width, height)
    ensures var cands := Candidates(grid, width, height, forbidden);
            forall i, j :: 0 <= i < |cands| && 0 <= j < |cands| && i != j ==>
              {cands[i].cell, cands[i].neighbour} != {cands[j].cell, cands[j].neighbour}
  {
    CandidatesExactly(grid, width, height, forbidden);
    var cands := Candidates(grid, width, height, forbidden);
    forall i, j | 0 <= i < |cands| && 0 <= j < |cands| && i != j
      ensures {cands[i].cell, cands[i].neighbour} != {cands[j].cell, cands[j].neighbour}
    {
      var a, b := cands[i], cands[j];
      assert IsCandidate(grid, width, height, forbidden, a) && IsCandidate(grid, width, height, forbidden, b);
      assert a.neighbour.x + a.neighbour.y == a.cell.x + a.cell.y + 1;
      assert b.neighbour.x + b.neighbour.y == b.cell.x + b.cell.y + 1;
      if a.cell == b.cell && a.neighbour == b.neighbour {
        MoveDeltaInjective(a.direction, b.direction);
      }
      assert a != b;
      TwoElementSets(a.cell, a.neighbour, b.cell, b.neighbour);
    }
  }

  /** Two sets of two distinct elements are equal only when their elements pair up. */
  lemma TwoElementSets<T>(p: T, q: T, r: T, s: T)
    requires p != q
    ensures {p, q} == {r, s} ==> (p == r && q == s) || (p == s && q == r)
  {
    if {p, q} == {r, s} {
      assert p in {r, s} && q in {r, s} && r in {p, q} && s in {p, q};
    }
  }

  /** Every candidate passes carve_coordinate's checks. */
  lemma CandidateCarvable(grid: Grid, width: int, height: int, forbidden: set<Coord>, c: Candidate)
    requires WellFormed(grid, width, height) && IsCandidate(grid, width, height, forbidden, c)
    ensures CarveCheck(width, height, c.cell, c.neighbour) == Pass
    ensures DirectionBetween(c.cell, c.neighbour) == Some(c.direction)
  {
    DirectionBetweenMove(c.cell, c.direction);
  }

  /** The candidate scan: each cell's east candidate, then its south candidate, row by row. */
  method ScanCandidates(maze: Maze, forbidden: set<Coord>) returns (cands: seq<Candidate>)
    requires maze.Valid()
    ensures cands == Candidates(maze.grid, maze.width, maze.height, forbidden)
  {
    ghost var rows := Rows(maze.grid, maze.width, maze.height, forbidden);
    cands := [];
    for y := 0 to maze.height
      invariant cands == Flatten(rows[..y])
    {
      cands := ScanRow(maze, forbidden, y, cands);
      FlattenSnoc(rows, y);
    }
    assert rows[..maze.height] == rows;
  }

  /** One pass of the scan's outer loop: the candidates of row y appended in order. */
  method ScanRow(maze: Maze, forbidden: set<Coord>, y: int, cands: seq<Candidate>) returns (r: seq<Candidate>)
    requires maze.Valid() && 0 <= y < maze.height
    ensures r == cands + Flatten(RowCells(maze.grid, maze.width, maze.height, forbidden, y))
  {
    ghost var cells := RowCells(maze.grid, maze.width, maze.height, forbidden, y);
    r := cands;
    for x := 0 to maze.width
      invariant r == cands + Flatten(cells[..x])
    {
      r := ScanCell(maze, forbidden, x, y, r);
      FlattenSnoc(cells, x);
    }
    assert cells[..maze.width] == cells;
  }

  /** One pass of the scan's inner loop: the east candidate of (x, y), then its south one. */
  method ScanCell(maze: Maze, forbidden: set<Coord>, x: int, y: int, cands: seq<Candidate>) returns (r: seq<Candidate>)
    requires maze.Valid() && 0 <= x < maze.width && 0 <= y < maze.height
    ensures r == cands + CellCandidates(maze.grid, maze.width, maze.height, forbidden, x, y)
  {
    r := cands;
    if x + 1 < maze.width {
      if CheckNeighborPair(maze, Coord(x, y), E) && Coord(x, y) !in forbidden && Coord(x + 1, y) !in forbidden {
        r := r + [Candidate(Coord(x, y), Coord(x + 1, y), E)];
      }
    }
    if y + 1 < maze.height {
      if CheckNeighborPair(maze, Coord(x, y), S) && Coord(x, y) !in forbidden && Coord(x, y + 1) !in forbidden {
        r := r + [Candidate(Coord(x, y), Coord(x, y + 1), S)];
      }
    }
  }

  /** The number of walls to open: max(1, width * height // 25), then at most the candidates available. */
  function TargetCount(width: int, height: int, available: nat): (n: nat)
    requires width > 0 && height > 0
    ensures n <= available
    ensures available > 0 ==> n >= 1
    ensures n <= (if width * height / 25 >= 1 then width * height / 25 else 1)
    ensures n == available || n == (if width * height / 25 >= 1 then width * height / 25 else 1)
  {
    var extra := if 1 >= width * height / 25 then 1 else width * height / 25;
    if extra <= available then extra else available
  }

  /** list.remove: drop the first occurrence of x, if any. */
  function RemoveFirst<T(==)>(s: seq<T>, x: T): (r: seq<T>)
    ensures x in s ==> |r| == |s| - 1
    ensures x !in s ==> r == s
  {
    if s == [] then []
    else if s[0] == x then s[1..]
    else [s[0]] + RemoveFirst(s[1..], x)
  }

  /** In a list without duplicates, removing the element at i drops exactly position i. */
  lemma {:induction false} RemoveFirstAt<T>(s: seq<T>, i: int)
    requires Distinct(s) && 0 <= i < |s|
    ensures RemoveFirst(s, s[i]) == s[..i] + s[i + 1..]
  {
    if i > 0 {
      assert s[0] != s[i];
      var t := s[1..];
      assert Distinct(t) by {
        forall a, b | 0 <= a < b < |t| ensures t[a] != t[b] {
          assert t[a] == s[a + 1] && t[b] == s[b + 1];
        }
      }
      assert t[i - 1] == s[i];
      RemoveFirstAt(t, i - 1);
      assert [s[0]] + (t[..i - 1] + t[i..]) == s[..i] + s[i + 1..];
    }
  }

  /** Every listed wall passes carve_coordinate's checks. */
  predicate AllCarvable(width: int, height: int, ops: seq<Candidate>)
  {
    forall k :: 0 <= k < |ops| ==> CarveCheck(width, height, ops[k].cell, ops[k].neighbour) == Pass
  }

  /** The grid after carving the listed walls in order. */
  function CarveAll(grid: Grid, width: int, height: int, ops: seq<Candidate>): (r: Grid)
    requires WellFormed(grid, width, height) && AllCarvable(width, height, ops)
    ensures WellFormed(r, width, height)
    decreases |ops|
  {
    if ops == [] then grid
    else
      var front := ops[..|ops| - 1];
      assert forall k :: 0 <= k < |front| ==> front[k] == ops[k];
      var before := CarveAll(grid, width, height, front);
      var last := ops[|ops| - 1];
      CarvedGridMasks(before, width, height, last.cell, last.neighbour);
      CarvedGrid(before, width, height, last.cell, last.neighbour)
  }

  /** The wall on side d of c is the wall the candidate o opens, seen from either of its cells. */
  predicate OnEdge(o: Candidate, c: Coord, d: Direction)
  {
    (c == o.cell && Move(c, d) == o.neighbour) || (c == o.neighbour && Move(c, d) == o.cell)
  }

  /** Some listed candidate opens the wall on side d of c. */
  ghost predicate Opened(ops: seq<Candidate>, c: Coord, d: Direction)
  {
    exists k :: 0 <= k < |ops| && OnEdge(ops[k], c, d)
  }

  lemma OpenedSnoc(ops: seq<Candidate>, c: Coord, d: Direction)
    requires |ops| > 0
    ensures Opened(ops, c, d) <==> Opened(ops[..|ops| - 1], c, d) || OnEdge(ops[|ops| - 1], c, d)
  {
    var front := ops[..|ops| - 1];
    if Opened(ops, c, d) {
      var k :| 0 <= k < |ops| && OnEdge(ops[k], c, d);
      if k < |ops| - 1 {
        assert front[k] == ops[k];
      }
    }
    if Opened(front, c, d) {
      var k :| 0 <= k < |front| && OnEdge(front[k], c, d);
      assert ops[k] == front[k];
    }
  }

  /**
   * After carving a list of walls, a wall is closed exactly when it was
   * closed before and no listed carve carved it: the listed walls are open
   * on both sides and no other wall changed.
   */
  lemma {:induction false} CarveAllWalls(grid: Grid, width: int, height: int, ops: seq<Candidate>)
    requires WellFormed(grid, width, height) && AllCarvable(width, height, ops)
    ensures forall c, d :: InBounds(c, width, height) ==>
              WallAt(CarveAll(grid, width, height, ops), width, height, c, d) ==
                (WallAt(grid, width, height, c, d) && !Opened(ops, c, d))
    decreases |ops|
  {
    if ops != [] {
      var front := ops[..|ops| - 1];
      assert forall k :: 0 <= k < |front| ==> front[k] == ops[k];
      var before := CarveAll(grid, width, height, front);
      var last := ops[|ops| - 1];
      CarveAllWalls(grid, width, height, front);
      CarvedCells(before, width, height, last.cell, last.neighbour);
      forall c, d | InBounds(c, width, height)
        ensures WallAt(CarveAll(grid, width, height, ops), width, height, c, d) ==
                  (WallAt(grid, width, height, c, d) && !Opened(ops, c, d))
      {
        OpenedSnoc(ops, c, d);
      }
    } else {
      forall c, d | InBounds(c, width, height) ensures !Opened(ops, c, d) {
      }
    }
  }

  /** Carving a list of walls keeps wall coherence. */
  lemma {:induction false} CarveAllPreservesCoherence(grid: Grid, width: int, height: int, ops: seq<Candidate>)
    requires WellFormed(grid, width, height) && AllCarvable(width, height, ops)
    requires WallsCoherent(grid, width, height)
    ensures WallsCoherent(CarveAll(grid, width, height, ops), width, height)
    decreases |ops|
  {
    if ops != [] {
      var front := ops[..|ops| - 1];
      assert forall k :: 0 <= k < |front| ==> front[k] == ops[k];
      CarveAllPreservesCoherence(grid, width, height, front);
      var last := ops[|ops| - 1];
      CarvePreservesCoherence(CarveAll(grid, width, height, front), width, height, last.cell, last.neighbour);
    }
  }

  /** Carving a list of walls keeps the outer border closed. */
  lemma {:induction false} CarveAllPreservesBorders(grid: Grid, width: int, height: int, ops: seq<Candidate>)
    requires WellFormed(grid, width, height) && AllCarvable(width, height, ops)
    requires BordersClosed(grid, width, height)
    ensures BordersClosed(CarveAll(grid, width, height, ops), width, height)
    decreases |ops|
  {
    if ops != [] {
      var front := ops[..|ops| - 1];
      assert forall k :: 0 <= k < |front| ==> front[k] == ops[k];
      CarveAllPreservesBorders(grid, width, height, front);
      var last := ops[|ops| - 1];
      CarvePreservesBorders(CarveAll(grid, width, height, front), width, height, last.cell, last.neighbour);
    }
  }

  /** Walls drawn from the candidate list pass carve_coordinate's checks. */
  lemma CandidatesCarvable(grid: Grid, width: int, height: int, forbidden: set<Coord>, ops: seq<Candidate>)
    requires WellFormed(grid, width, height)
    requires forall k :: 0 <= k < |ops| ==> ops[k] in Candidates(grid, width, height, forbidden)
    ensures AllCarvable(width, height, ops)
  {
    CandidatesExactly(grid, width, height, forbidden);
    forall k | 0 <= k < |ops| ensures CarveCheck(width, height, ops[k].cell, ops[k].neighbour) == Pass {
      CandidateCarvable(grid, width, height, forbidden, ops[k]);
    }
  }

  /**
   * multiple_path_maze: scan for candidates, then open TargetCount of them,
   * each picked at an arbitrary index and removed from the list first. The
   * ghost result lists the walls carved, in order.
   */
  method MultiplePaths(maze: Maze, forbidden: set<Coord>) returns (ghost carved: seq<Candidate>)
    requires maze.Valid()
    modifies maze
    ensures maze.Valid()
    ensures var all := Candidates(old(maze.grid), maze.width, maze.height, forbidden);
            && |carved| == TargetCount(maze.width, maze.height, |all|)
            && Distinct(carved)
            && (forall k :: 0 <= k < |carved| ==> carved[k] in all)
            && AllCarvable(maze.width, maze.height, carved)
            && maze.grid == CarveAll(old(maze.grid), maze.width, maze.height, carved)
  {
    ghost var start := maze.grid;
    var cands := ScanCandidates(maze, forbidden);
    ghost var all := cands;
    CandidatesExactly(start, maze.width, maze.height, forbidden);
    var extra := TargetCount(maze.width, maze.height, |cands|);
    carved := [];
    for paths := 0 to extra
      invariant maze.Valid()
      invariant |carved| == paths
      invariant Partition(all, cands, carved)
      invariant AllCarvable(maze.width, maze.height, carved)
      invariant maze.grid == CarveAll(start, maze.width, maze.height, carved)
    {
      cands, carved := PickAndCarve(maze, forbidden, start, all, cands, carved);
    }
  }

  /**
   * One round of the loop of multiple_path_maze: pick an arbitrary remaining
   * candidate, drop it from the list and open its wall.
   */
  method PickAndCarve(maze: Maze, forbidden: set<Coord>, ghost start: Grid, ghost all: seq<Candidate>,
                      cands: seq<Candidate>, ghost carved: seq<Candidate>)
    returns (cands': seq<Candidate>, ghost carved': seq<Candidate>)
    requires maze.Valid() && WellFormed(start, maze.width, maze.height)
    requires all == Candidates(start, maze.width, maze.height, forbidden)
    requires Partition(all, cands, carved) && |cands| > 0
    requires AllCarvable(maze.width, maze.height, carved)
    requires maze.grid == CarveAll(start, maze.width, maze.height, carved)
    modifies maze
    ensures maze.Valid()
    ensures Partition(all, cands', carved') && |carved'| == |carved| + 1 && carved'[..|carved|] == carved
    ensures AllCarvable(maze.width, maze.height, carved')
    ensures maze.grid == CarveAll(start, maze.width, maze.height, carved')
  {
    var pick :| 0 <= pick < |cands|;
    var pair := cands[pick];
    PickStep(all, cands, carved, pick);
    cands' := RemoveFirst(cands, pair);
    carved' := carved + [pair];
    assert forall k :: 0 <= k < |carved'| ==> carved'[k] in all;
    CandidatesCarvable(start, maze.width, maze.height, forbidden, carved');
    var r := CarveCoordinate(maze, pair.cell, pair.neighbour);
    assert carved'[..|carved'| - 1] == carved;
  }

  /** rest and taken split all between them, neither with a duplicate. */
  ghost predicate Partition(all: seq<Candidate>, rest: seq<Candidate>, taken: seq<Candidate>)
  {
    && Distinct(rest) && Distinct(taken)
    && |rest| + |taken| == |all|
    && (forall t :: t in all <==> t in rest || t in taken)
    && (forall t :: t in rest ==> t !in taken)
  }

  /** Moving the element at position i from rest to the end of taken, as the pick-and-remove does, keeps the split. */
  lemma PickStep(all: seq<Candidate>, rest: seq<Candidate>, taken: seq<Candidate>, i: int)
    requires Partition(all, rest, taken) && 0 <= i < |rest|
    ensures Partition(all, RemoveFirst(rest, rest[i]), taken + [rest[i]])
  {
    RemoveFirstAt(rest, i);
    PickRemoved(rest, i);
    AppendDistinct(taken, rest[i]);
  }

  /** Removing position i of a duplicate-free list leaves a duplicate-free list without s[i] and with everything else. */
  lemma PickRemoved<T>(s: seq<T>, i: int)
    requires Distinct(s) && 0 <= i < |s|
    ensures var r := s[..i] + s[i + 1..];
            && Distinct(r) && s[i] !in r && |r| == |s| - 1
            && (forall t :: t in s <==> t in r || t == s[i])
  {
    var r := s[..i] + s[i + 1..];
    forall a, b | 0 <= a < b < |r| ensures r[a] != r[b] {
      var a' := if a < i then a else a + 1;
      var b' := if b < i then b else b + 1;
      assert r[a] == s[a'] && r[b] == s[b'];
    }
    forall k | 0 <= k < |r| ensures r[k] != s[i] {
      var k' := if k < i then k else k + 1;
      assert r[k] == s[k'];
    }
    forall t | t in s ensures t in r || t == s[i] {
      var k :| 0 <= k < |s| && s[k] == t;
      if k < i { assert r[k] == t; } else if k > i { assert r[k - 1] == t; }
    }
  }

  /** Appending an element not yet listed keeps a list duplicate-free. */
  lemma AppendDistinct<T>(s: seq<T>, x: T)
    requires Distinct(s) && x !in s
    ensures Distinct(s + [x])
  {
    var r := s + [x];
    forall a, b | 0 <= a < b < |r| ensures r[a] != r[b] {
      assert r[a] == s[a];
    }
  }

  /**
   * The effect of multiple_path_maze on a coherent maze with closed borders:
   * it stays coherent and closed, no wall is closed, and a wall changes
   * exactly when it is one of the carved candidates, which are then open on
   * both sides.
   */
  lemma MultiplePathsEffect(grid: Grid, width: int, height: int, forbidden: set<Coord>, carved: seq<Candidate>)
    requires WellFormed(grid, width, height)
    requires forall k :: 0 <= k < |carved| ==> carved[k] in Candidates(grid, width, height, forbidden)
    requires WallsCoherent(grid, width, height) && BordersClosed(grid, width, height)
    ensures AllCarvable(width, height, carved)
    ensures WallsCoherent(CarveAll(grid, width, height, carved), width, height)
    ensures BordersClosed(CarveAll(grid, width, height, carved), width, height)
    ensures forall c, d :: InBounds(c, width, height) && WallAt(CarveAll(grid, width, height, carved), width, height, c, d)
              ==> WallAt(grid, width, height, c, d)
    ensures forall k :: 0 <= k < |carved| ==>
              && !WallAt(CarveAll(grid, width, height, carved), width, height, carved[k].cell, carved[k].direction)
              && !WallAt(CarveAll(grid, width, height, carved), width, height, carved[k].neighbour, DirOpposite(carved[k].direction))
  {
    CandidatesCarvable(grid, width, height, forbidden, carved);
    CarveAllPreservesCoherence(grid, width, height, carved);
    CarveAllPreservesBorders(grid, width, height, carved);
    CarveAllWalls(grid, width, height, carved);
    CandidatesExactly(grid, width, height, forbidden);
    forall k | 0 <= k < |carved|
      ensures && !WallAt(CarveAll(grid, width, height, carved), width, height, carved[k].cell, carved[k].direction)
              && !WallAt(CarveAll(grid, width, height, carved), width, height, carved[k].neighbour, DirOpposite(carved[k].direction))
    {
      var o := carved[k];
      assert IsCandidate(grid, width, height, forbidden, o);
      MoveBack(o.cell, o.direction);
      assert OnEdge(o, o.cell, o.direction);
      assert OnEdge(o, o.neighbour, DirOpposite(o.direction));
    }
  }
}
