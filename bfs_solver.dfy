/**
 * bfs_shortest_path_solver: breadth-first search from the entry over the
 * maze graph, stopping when the exit is dequeued, followed by the walk back
 * along the parent links.
 */
module BfsShortestPathSolver {
  import opened Wrappers
  import opened Directions
  import opened MazeDefinitions
  import opened WallOperations
  import opened MazeGraph

  /** The elements of s in reverse order. */
  function Reversed<T>(s: seq<T>): (r: seq<T>)
    ensures |r| == |s|
    ensures forall i :: 0 <= i < |s| ==> r[i] == s[|s| - 1 - i]
  {
    if s == [] then [] else Reversed(s[1..]) + [s[0]]
  }

  /** p is a walk from s to t with no repeated cell, and no walk from s to t is shorter. */
  ghost predicate IsShortestPath(grid: Grid, width: int, height: int, forbidden: set<Coord>, s: Coord, t: Coord, p: seq<Coord>)
    requires WellFormed(grid, width, height)
  {
    && IsWalk(grid, width, height, forbidden, p)
    && p[0] == s && p[|p| - 1] == t
    && Distinct(p)
    && forall q :: IsWalk(grid, width, height, forbidden, q) && q[0] == s && q[|q| - 1] == t ==> |p| <= |q|
  }

  /** The parent entry of one visited cell: none for the entry, otherwise a visited cell one step before it and one closer. */
  ghost predicate LinkOk(grid: Grid, width: int, height: int, forbidden: set<Coord>, entry: Coord,
                         visited: set<Coord>, parent: map<Coord, Option<Coord>>, dist: map<Coord, nat>, v: Coord)
    requires WellFormed(grid, width, height)
  {
    && v in parent && v in dist
    && InBounds(v, width, height)
    && (parent[v].None? <==> v == entry)
    && (parent[v].Some? ==>
          && parent[v].value in visited && parent[v].value in dist
          && Step(grid, width, height, forbidden, parent[v].value, v)
          && dist[v] == dist[parent[v].value] + 1)
  }

  /** Every visited cell has a parent entry, the entry alone having none, and each parent is one step closer. */
  ghost predicate ParentLinks(grid: Grid, width: int, height: int, forbidden: set<Coord>, entry: Coord,
                              visited: set<Coord>, parent: map<Coord, Option<Coord>>, dist: map<Coord, nat>)
    requires WellFormed(grid, width, height)
  {
    && parent.Keys == visited && dist.Keys == visited
    && entry in visited && dist[entry] == 0
    && (forall v {:trigger LinkOk(grid, width, height, forbidden, entry, visited, parent, dist, v)} ::
          v in visited ==> LinkOk(grid, width, height, forbidden, entry, visited, parent, dist, v))
  }

  /** The queue holds exactly the visited cells not yet expanded, once each. */
  ghost predicate QueueFrontier(visited: set<Coord>, queue: seq<Coord>, processed: set<Coord>)
  {
    && processed <= visited
    && (forall v :: v in queue <==> v in visited && v !in processed)
    && Distinct(queue)
  }

  /** Queue distances never decrease, and no visited cell is more than one beyond the head. */
  ghost predicate QueueLayered(visited: set<Coord>, queue: seq<Coord>, dist: map<Coord, nat>)
    requires visited <= dist.Keys
    requires forall v :: v in queue ==> v in visited
  {
    && (forall i, j :: 0 <= i <= j < |queue| ==> dist[queue[i]] <= dist[queue[j]])
    && (|queue| > 0 ==> forall v :: v in visited ==> dist[v] <= dist[queue[0]] + 1)
  }

  /** Every successor of an expanded cell is visited, at a distance at most one more. */
  ghost predicate ExpandedClosed(grid: Grid, width: int, height: int, forbidden: set<Coord>,
                                 visited: set<Coord>, processed: set<Coord>, dist: map<Coord, nat>)
    requires WellFormed(grid, width, height)
    requires processed <= visited <= dist.Keys
  {
    forall u, v :: u in processed && Step(grid, width, height, forbidden, u, v) ==>
      v in visited && v in dist && dist[v] <= dist[u] + 1
  }

  /**
   * What holds between iterations of the search: the parent links, the
   * queue as the frontier of visited but unexpanded cells in layers of
   * distance, and closure of the expanded cells.
   */
  ghost predicate SearchState(grid: Grid, width: int, height: int, forbidden: set<Coord>, entry: Coord,
                              visited: set<Coord>, queue: seq<Coord>, processed: set<Coord>,
                              parent: map<Coord, Option<Coord>>, dist: map<Coord, nat>)
    requires WellFormed(grid, width, height)
  {
    && ParentLinks(grid, width, height, forbidden, entry, visited, parent, dist)
    && QueueFrontier(visited, queue, processed)
    && QueueLayered(visited, queue, dist)
    && ExpandedClosed(grid, width, height, forbidden, visited, processed, dist)
  }

  /** The neighbour of current through side d, if a step leads there, is visited at distance at most one more. */
  ghost predicate Expanded(grid: Grid, width: int, height: int, forbidden: set<Coord>,
                           visited: set<Coord>, dist: map<Coord, nat>, current: Coord, d: Direction)
    requires WellFormed(grid, width, height)
    requires current in dist
  {
    Step(grid, width, height, forbidden, current, Move(current, d)) ==>
      Move(current, d) in visited && Move(current, d) in dist && dist[Move(current, d)] <= dist[current] + 1
  }

  lemma PushKeepsLinks(grid: Grid, width: int, height: int, forbidden: set<Coord>, entry: Coord,
                       visited: set<Coord>, parent: map<Coord, Option<Coord>>, dist: map<Coord, nat>, current: Coord, n: Coord)
    requires WellFormed(grid, width, height)
    requires ParentLinks(grid, width, height, forbidden, entry, visited, parent, dist)
    requires current in visited && Step(grid, width, height, forbidden, current, n) && n !in visited
    ensures ParentLinks(grid, width, height, forbidden, entry, visited + {n}, parent[n := Some(current)], dist[n := dist[current] + 1])
  {
    var visited', parent', dist' := visited + {n}, parent[n := Some(current)], dist[n := dist[current] + 1];
    assert LinkOk(grid, width, height, forbidden, entry, visited, parent, dist, current);
    forall v | v in visited' ensures LinkOk(grid, width, height, forbidden, entry, visited', parent', dist', v) {
      if v != n {
        assert LinkOk(grid, width, height, forbidden, entry, visited, parent, dist, v);
      } else {
        assert n != entry;
      }
    }
  }

  lemma PushKeepsLayers(visited: set<Coord>, queue: seq<Coord>, dist: map<Coord, nat>, n: Coord)
    requires visited <= dist.Keys && (forall v :: v in queue ==> v in visited)
    requires QueueLayered(visited, queue, dist)
    requires |queue| > 0 && n !in visited
    ensures QueueLayered(visited + {n}, queue + [n], dist[n := dist[queue[0]] + 1])
  {
    var visited', queue', dist' := visited + {n}, queue + [n], dist[n := dist[queue[0]] + 1];
    assert queue'[0] == queue[0];
    forall i, j | 0 <= i <= j < |queue'| ensures dist'[queue'[i]] <= dist'[queue'[j]] {
      if j < |queue| {
        assert queue'[i] == queue[i] && queue'[j] == queue[j];
      } else if i < |queue| {
        assert queue'[i] == queue[i] && queue[i] in visited;
      }
    }
  }

  /** Enqueuing an unvisited successor of the queue head keeps the search state. */
  lemma PushKeepsState(grid: Grid, width: int, height: int, forbidden: set<Coord>, entry: Coord,
                       visited: set<Coord>, queue: seq<Coord>, processed: set<Coord>,
                       parent: map<Coord, Option<Coord>>, dist: map<Coord, nat>, n: Coord)
    requires WellFormed(grid, width, height)
    requires SearchState(grid, width, height, forbidden, entry, visited, queue, processed, parent, dist)
    requires |queue| > 0 && Step(grid, width, height, forbidden, queue[0], n) && n !in visited
    ensures SearchState(grid, width, height, forbidden, entry, visited + {n}, queue + [n], processed,
                        parent[n := Some(queue[0])], dist[n := dist[queue[0]] + 1])
  {
    var current := queue[0];
    PushKeepsLinks(grid, width, height, forbidden, entry, visited, parent, dist, current, n);
    PushKeepsLayers(visited, queue, dist, n);
    var queue' := queue + [n];
    assert Distinct(queue') by {
      forall i, j | 0 <= i < j < |queue'| ensures queue'[i] != queue'[j] {
        if j < |queue| {
          assert queue'[i] == queue[i] && queue'[j] == queue[j];
        } else {
          assert queue'[i] == queue[i] && queue[i] in visited;
        }
      }
    }
    assert QueueFrontier(visited + {n}, queue', processed);
    assert ExpandedClosed(grid, width, height, forbidden, visited + {n}, processed, dist[n := dist[current] + 1]);
  }

  /** Dequeuing the head once all of its successors are visited keeps the search state. */
  lemma PopKeepsState(grid: Grid, width: int, height: int, forbidden: set<Coord>, entry: Coord,
                      visited: set<Coord>, queue: seq<Coord>, processed: set<Coord>,
                      parent: map<Coord, Option<Coord>>, dist: map<Coord, nat>)
    requires WellFormed(grid, width, height)
    requires SearchState(grid, width, height, forbidden, entry, visited, queue, processed, parent, dist)
    requires |queue| > 0
    requires forall d :: Expanded(grid, width, height, forbidden, visited, dist, queue[0], d)
    ensures SearchState(grid, width, height, forbidden, entry, visited, queue[1..], processed + {queue[0]}, parent, dist)
  {
    var current := queue[0];
    var processed' := processed + {current};
    forall u, v | u in processed' && Step(grid, width, height, forbidden, u, v)
      ensures v in visited && v in dist && dist[v] <= dist[u] + 1
    {
      if u == current {
        var d := DirectionBetween(current, v).value;
        assert Move(current, d) == v;
        assert Expanded(grid, width, height, forbidden, visited, dist, current, d);
      }
    }
    forall v ensures v in queue[1..] <==> v in visited && v !in processed' {
      if v in queue[1..] {
        var i :| 1 <= i < |queue| && queue[i] == v;
        assert queue[0] != queue[i];
      }
      assert v in queue ==> v == queue[0] || v in queue[1..];
    }
    assert Distinct(queue[1..]) by {
      forall i, j | 0 <= i < j < |queue| - 1 ensures queue[1..][i] != queue[1..][j] {
        assert queue[1..][i] == queue[i + 1] && queue[1..][j] == queue[j + 1];
      }
    }
    assert QueueLayered(visited, queue[1..], dist) by {
      forall i, j | 0 <= i <= j < |queue| - 1 ensures dist[queue[1..][i]] <= dist[queue[1..][j]] {
        assert queue[1..][i] == queue[i + 1] && queue[1..][j] == queue[j + 1];
      }
      if |queue| > 1 {
        assert dist[queue[0]] <= dist[queue[1]];
      }
    }
  }

  /**
   * The heart of breadth-first search: with the search state at queue
   * level `level`, every walk from the entry is at least as long as the
   * recorded distance of the visited cell it ends in, and longer than
   * `level` if it ends outside the visited set.
   */
  lemma {:induction false} WalkLengthBound(grid: Grid, width: int, height: int, forbidden: set<Coord>, entry: Coord,
                                           visited: set<Coord>, processed: set<Coord>, dist: map<Coord, nat>,
                                           level: nat, p: seq<Coord>)
    requires WellFormed(grid, width, height)
    requires visited <= dist.Keys && processed <= visited
    requires entry in visited && dist[entry] == 0
    requires forall u, v :: u in processed && Step(grid, width, height, forbidden, u, v) ==>
               v in visited && dist[v] <= dist[u] + 1
    requires forall u :: u in visited && u !in processed ==> dist[u] >= level
    requires forall v :: v in visited ==> dist[v] <= level + 1
    requires IsWalk(grid, width, height, forbidden, p) && p[0] == entry
    ensures p[|p| - 1] in visited ==> |p| - 1 >= dist[p[|p| - 1]]
    ensures p[|p| - 1] !in visited ==> |p| - 1 >= level + 1
    decreases |p|
  {
    if |p| > 1 {
      var n := |p|;
      var q := p[..n - 1];
      WalkPrefix(grid, width, height, forbidden, p, n - 1);
      WalkLengthBound(grid, width, height, forbidden, entry, visited, processed, dist, level, q);
      assert q[|q| - 1] == p[n - 2];
      assert Step(grid, width, height, forbidden, p[n - 2], p[n - 1]);
    }
  }

  /** What Expanded states survives more cells being visited, since recorded distances never change. */
  lemma ExpandedMonotone(grid: Grid, width: int, height: int, forbidden: set<Coord>,
                         visited: set<Coord>, dist: map<Coord, nat>, visited': set<Coord>, dist': map<Coord, nat>,
                         current: Coord, d: Direction)
    requires WellFormed(grid, width, height)
    requires current in dist && visited <= visited'
    requires forall v :: v in dist ==> v in dist' && dist'[v] == dist[v]
    requires Expanded(grid, width, height, forbidden, visited, dist, current, d)
    ensures Expanded(grid, width, height, forbidden, visited', dist', current, d)
  {
  }

  /** A neighbour through a closed or outward wall, or a forbidden one, admits no step; a visited one is within one of the head. */
  lemma ExpandedWhenVisited(grid: Grid, width: int, height: int, forbidden: set<Coord>, entry: Coord,
                            visited: set<Coord>, queue: seq<Coord>, processed: set<Coord>,
                            parent: map<Coord, Option<Coord>>, dist: map<Coord, nat>, d: Direction)
    requires WellFormed(grid, width, height)
    requires SearchState(grid, width, height, forbidden, entry, visited, queue, processed, parent, dist)
    requires |queue| > 0
    requires Step(grid, width, height, forbidden, queue[0], Move(queue[0], d)) ==> Move(queue[0], d) in visited
    ensures queue[0] in dist
    ensures Expanded(grid, width, height, forbidden, visited, dist, queue[0], d)
  {
    assert queue[0] in visited;
  }

  /** One round of the inner loop: enqueue the neighbour through side `direction` if the wall is open and it is new and allowed. */
  method TryNeighbour(maze: Maze, forbidden: set<Coord>, current: Coord, direction: Direction,
                      visited: set<Coord>, queue: seq<Coord>, parent: map<Coord, Option<Coord>>,
                      ghost processed: set<Coord>, ghost dist: map<Coord, nat>)
    returns (visited': set<Coord>, queue': seq<Coord>, parent': map<Coord, Option<Coord>>, ghost dist': map<Coord, nat>)
    requires maze.Valid()
    requires SearchState(maze.grid, maze.width, maze.height, forbidden, maze.entry, visited, queue, processed, parent, dist)
    requires |queue| > 0 && queue[0] == current
    ensures SearchState(maze.grid, maze.width, maze.height, forbidden, maze.entry, visited', queue', processed, parent', dist')
    ensures |queue'| > 0 && queue'[0] == current
    ensures visited <= visited' && forall v :: v in dist ==> v in dist' && dist'[v] == dist[v]
    ensures current in dist' && Expanded(maze.grid, maze.width, maze.height, forbidden, visited', dist', current, direction)
  {
    var width, height := maze.width, maze.height;
    ghost var grid := maze.grid;
    ghost var entry := maze.entry;
    visited', queue', parent', dist' := visited, queue, parent, dist;
    ParentLink(grid, width, height, forbidden, entry, visited, parent, dist, current);
    var mask := maze.grid[current.y][current.x];
    var (dx, dy) := DirMoveDelta(direction);
    var nx, ny := current.x + dx, current.y + dy;
    assert Coord(nx, ny) == Move(current, direction);
    StepMove(grid, width, height, forbidden, current, direction);
    if 0 <= nx < width && 0 <= ny < height {
      if !IsItSolidWall(mask, DirBitValue(direction)) {
        var neighbor := Coord(nx, ny);
        if neighbor !in visited && neighbor !in forbidden {
          PushKeepsState(grid, width, height, forbidden, entry, visited, queue, processed, parent, dist, neighbor);
          visited' := visited + {neighbor};
          queue' := queue + [neighbor];
          parent' := parent[neighbor := Some(current)];
          dist' := dist[neighbor := dist[current] + 1];
        }
      }
    }
    ExpandedWhenVisited(grid, width, height, forbidden, entry, visited', queue', processed, parent', dist', direction);
  }

  /** The inner loop of the search: try the four neighbours of the queue head in the order N, E, S, W. */
  method ExpandNeighbours(maze: Maze, forbidden: set<Coord>, current: Coord,
                          visited: set<Coord>, queue: seq<Coord>, parent: map<Coord, Option<Coord>>,
                          ghost processed: set<Coord>, ghost dist: map<Coord, nat>)
    returns (visited': set<Coord>, queue': seq<Coord>, parent': map<Coord, Option<Coord>>, ghost dist': map<Coord, nat>)
    requires maze.Valid()
    requires SearchState(maze.grid, maze.width, maze.height, forbidden, maze.entry, visited, queue, processed, parent, dist)
    requires |queue| > 0 && queue[0] == current
    ensures SearchState(maze.grid, maze.width, maze.height, forbidden, maze.entry, visited', queue', processed, parent', dist')
    ensures |queue'| > 0 && queue'[0] == current
    ensures forall d :: Expanded(maze.grid, maze.width, maze.height, forbidden, visited', dist', current, d)
  {
    visited', queue', parent', dist' := visited, queue, parent, dist;
    var k := 0;
    while k < |DIRECTIONS|
      invariant 0 <= k <= |DIRECTIONS|
      invariant SearchState(maze.grid, maze.width, maze.height, forbidden, maze.entry, visited', queue', processed, parent', dist')
      invariant |queue'| > 0 && queue'[0] == current && current in dist'
      invariant forall j :: 0 <= j < k ==> Expanded(maze.grid, maze.width, maze.height, forbidden, visited', dist', current, DIRECTIONS[j])
    {
      ghost var visited0, dist0 := visited', dist';
      visited', queue', parent', dist' := TryNeighbour(maze, forbidden, current, DIRECTIONS[k], visited', queue', parent', processed, dist');
      forall j | 0 <= j < k ensures Expanded(maze.grid, maze.width, maze.height, forbidden, visited', dist', current, DIRECTIONS[j]) {
        ExpandedMonotone(maze.grid, maze.width, maze.height, forbidden, visited0, dist0, visited', dist', current, DIRECTIONS[j]);
      }
      k := k + 1;
    }
    AllDirectionsExpanded(maze.grid, maze.width, maze.height, forbidden, visited', dist', current);
  }

  /** Having tried every entry of DIRECTIONS is having tried every direction. */
  lemma AllDirectionsExpanded(grid: Grid, width: int, height: int, forbidden: set<Coord>,
                              visited: set<Coord>, dist: map<Coord, nat>, current: Coord)
    requires WellFormed(grid, width, height) && current in dist
    requires forall j :: 0 <= j < |DIRECTIONS| ==> Expanded(grid, width, height, forbidden, visited, dist, current, DIRECTIONS[j])
    ensures forall d :: Expanded(grid, width, height, forbidden, visited, dist, current, d)
  {
    forall d ensures Expanded(grid, width, height, forbidden, visited, dist, current, d) {
      assert DIRECTIONS[BitIndex(d)] == d;
    }
  }

  /** One link of the parent map, for a visited cell. */
  lemma ParentLink(grid: Grid, width: int, height: int, forbidden: set<Coord>, entry: Coord,
                   visited: set<Coord>, parent: map<Coord, Option<Coord>>, dist: map<Coord, nat>, v: Coord)
    requires WellFormed(grid, width, height)
    requires ParentLinks(grid, width, height, forbidden, entry, visited, parent, dist)
    requires v in visited
    ensures v in parent && v in dist && InBounds(v, width, height)
    ensures parent[v].None? <==> v == entry
    ensures parent[v].None? ==> dist[v] == 0
    ensures parent[v].Some? ==> && parent[v].value in visited
                                && Step(grid, width, height, forbidden, parent[v].value, v)
                                && dist[v] == dist[parent[v].value] + 1
  {
    assert LinkOk(grid, width, height, forbidden, entry, visited, parent, dist, v);
  }

  /** Reversing a chain of backward steps whose distances fall by one gives a walk with no repeated cell. */
  lemma ReversedChainIsWalk(grid: Grid, width: int, height: int, forbidden: set<Coord>, b: seq<Coord>,
                            dist: map<Coord, nat>, top: nat)
    requires WellFormed(grid, width, height)
    requires |b| >= 1
    requires forall i :: 0 <= i < |b| - 1 ==> Step(grid, width, height, forbidden, b[i + 1], b[i])
    requires forall i :: 0 <= i < |b| ==> b[i] in dist && dist[b[i]] + i == top
    ensures IsWalk(grid, width, height, forbidden, Reversed(b))
    ensures Distinct(Reversed(b))
  {
    var path := Reversed(b);
    forall i | 0 <= i < |path| - 1 ensures Step(grid, width, height, forbidden, path[i], path[i + 1]) {
      var j := |b| - 2 - i;
      assert path[i] == b[j + 1] && path[i + 1] == b[j];
    }
    forall i, j | 0 <= i < j < |path| ensures path[i] != path[j] {
      assert path[i] == b[|b| - 1 - i] && path[j] == b[|b| - 1 - j];
    }
  }

  /** The walk back from the exit along the parent links, reversed so that it runs from the entry. */
  method Backtrace(ghost grid: Grid, width: int, height: int, forbidden: set<Coord>, entry: Coord, exit: Coord,
                   ghost visited: set<Coord>, parent: map<Coord, Option<Coord>>, ghost dist: map<Coord, nat>)
    returns (path: seq<Coord>)
    requires WellFormed(grid, width, height)
    requires ParentLinks(grid, width, height, forbidden, entry, visited, parent, dist)
    requires exit in visited
    ensures IsWalk(grid, width, height, forbidden, path)
    ensures path[0] == entry && path[|path| - 1] == exit
    ensures Distinct(path) && |path| == dist[exit] + 1
  {
    var lastSpot: Option<Coord> := Some(exit);
    var backtrace: seq<Coord> := [];
    ParentLink(grid, width, height, forbidden, entry, visited, parent, dist, exit);
    while lastSpot.Some?
      invariant exit in dist
      invariant lastSpot.Some? ==> lastSpot.value in visited && dist[lastSpot.value] + |backtrace| == dist[exit]
      invariant lastSpot.None? ==> |backtrace| == dist[exit] + 1 && backtrace[|backtrace| - 1] == entry
      invariant |backtrace| == 0 ==> lastSpot == Some(exit)
      invariant |backtrace| > 0 ==> backtrace[0] == exit
      invariant forall i :: 0 <= i < |backtrace| ==> backtrace[i] in dist && dist[backtrace[i]] + i == dist[exit]
      invariant forall i :: 0 <= i < |backtrace| - 1 ==> Step(grid, width, height, forbidden, backtrace[i + 1], backtrace[i])
      invariant (|backtrace| > 0 && lastSpot.Some?) ==> Step(grid, width, height, forbidden, lastSpot.value, backtrace[|backtrace| - 1])
      decreases if lastSpot.Some? then dist[lastSpot.value] + 1 else 0
    {
      var spot := lastSpot.value;
      ParentLink(grid, width, height, forbidden, entry, visited, parent, dist, spot);
      backtrace := backtrace + [spot];
      lastSpot := parent[spot];
    }
    path := Reversed(backtrace);
    ReversedChainIsWalk(grid, width, height, forbidden, backtrace, dist, dist[exit]);
  }

  /** bfs_shortest_path_solver: a shortest walk from the entry to the exit, or an error when there is none. */
  method BfsShortestPath(maze: Maze, forbidden: set<Coord>) returns (r: Result<seq<Coord>, MazeError>)
    requires maze.Valid()
    ensures r.Failure? <==> !Reachable(maze.grid, maze.width, maze.height, forbidden, maze.entry, maze.exit)
    ensures r.Failure? ==> r.error == Unreachable(maze.entry, maze.exit)
    ensures r.Success? ==> IsShortestPath(maze.grid, maze.width, maze.height, forbidden, maze.entry, maze.exit, r.value)
  {
    var width, height, entry, exit := maze.width, maze.height, maze.entry, maze.exit;
    ghost var grid := maze.grid;
    var visited: set<Coord> := {entry};
    var queue: seq<Coord> := [entry];
    var parent: map<Coord, Option<Coord>> := map[entry := None];
    ghost var dist: map<Coord, nat> := map[entry := 0];
    ghost var processed: set<Coord> := {};
    // The head stays queued until its expansion is done, then it is dropped:
    // the queue after each round is the one the source's popleft leaves.
    while |queue| != 0
      invariant SearchState(grid, width, height, forbidden, entry, visited, queue, processed, parent, dist)
      invariant exit !in processed
      decreases AllCells(width, height) - processed
    {
      var current := queue[0];
      ParentLink(grid, width, height, forbidden, entry, visited, parent, dist, current);
      if current == exit {
        forall p | IsWalk(grid, width, height, forbidden, p) && p[0] == entry && p[|p| - 1] == exit
          ensures |p| - 1 >= dist[exit]
        {
          WalkLengthBound(grid, width, height, forbidden, entry, visited, processed, dist, dist[current], p);
        }
        break;
      }
      visited, queue, parent, dist := ExpandNeighbours(maze, forbidden, current, visited, queue, parent, processed, dist);
      PopKeepsState(grid, width, height, forbidden, entry, visited, queue, processed, parent, dist);
      processed := processed + {current};
      queue := queue[1..];
    }
    if exit !in parent {
      ClosedSetUnreachable(grid, width, height, forbidden, visited, entry, exit);
      return Failure(Unreachable(entry, exit));
    }
    var path := Backtrace(grid, width, height, forbidden, entry, exit, visited, parent, dist);
    return Success(path);
  }
}
