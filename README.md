# a_maze_ing — a Dafny model of the maze engine

This project models the maze engine of `a_maze_ing` and proves properties of the model. The engine keeps a rectangular grid of
4-bit wall masks (bit 1 = north, 2 = east, 4 = south, 8 = west; a set bit
is a closed wall). It marks a "42" stencil of forbidden cells, opens extra
walls to make loops, solves the maze by breadth-first search, and checks the
structure with three validators. The model also covers the small pure pieces
around the engine:
- the two converters from a coordinate path to direction letters;
- the replay of a letter path in the renderer;
- the output-file text;
- the KEY=VALUE configuration reader;
- the validation and line layout of the ASCII picture.

There is one Dafny module per source file. The state that the source changes in place is modelled imperatively:
- `MazeDefinitions.Maze` is a class whose `grid` field is reassigned by `WallOperations.CarveCoordinate`.
- `MazeGen.MazeGenerator` keeps the maze, the path and the forbidden set as fields.
- The loops of the BFS solver and of the connectivity validator are `while` loops. The extra-wall pass, the configuration reader's line loop, the renderer's path replay and its picture construction are `for` loops.
- Each of these methods is proved against a specification function or predicate.

The pure code is modelled as functions, with lemmas that relate each operation to its partner. For example:
- the converters against the replay;
- the writer against a reader;
- a carve against the coherence and border invariants;
- BFS against reachability and shortest walks.

Shared helpers: `Wrappers` has Option, Result and Outcome. `Bits` has Python's `&`, `|` and `& ~` on naturals. `Text` has strip, case mapping, split, decimal `int()`/`str()`, hex digits and lines. `MazeGraph` defines the step relation both searches follow, and walks and reachability over it. `GridChecks` has the 0..15 cell scan that the writer and the renderer share.

Where the docstrings and the code disagree, the model follows the code:
- `bfs_connection_validator` promises to raise when a cell is unreachable, but it never raises (validators.py:85-86 against 98-140). The model returns the visited list it builds and proves that this list is exactly the reachable cells.
- The renderer's path marker is the three characters between two spaces exactly as the source file spells them (visualizer.py:212), not a single bullet.

## Model

| member | source | states |
|---|---|---|
| Directions.WallsToBits | maze_files/direction_definitions.py:62-79 | the bit of N, E, S or W from the table; an InvalidDirection error for any other string |
| Directions.OppositeWall | maze_files/direction_definitions.py:82-99 | the opposite letter of N, E, S or W; an InvalidDirection error for any other string |
| Directions.MoveDelta | maze_files/direction_definitions.py:102-120 | the (dx, dy) of N, E, S or W; an InvalidDirection error for any other string |
| Directions.Letter | maze_files/direction_definitions.py:34 | the single character of a direction is its name in the table |
| Directions.FromLetter | visualizer.py:107-116 | a character names a direction exactly when it is one of N, E, S, W, and then that direction's letter is the character |
| Directions.LetterRoundTrip | maze_files/direction_definitions.py:34 | reading a direction's letter gives the direction back |
| Directions.CanonicalOrder | maze_files/direction_definitions.py:34 | DIRECTIONS lists the four directions once each, in the order N, E, S, W |
| Directions.BitValuesAreSingleBits | maze_files/direction_definitions.py:37-42 | each bit value is a single distinct power of two, and together they make 15 |
| Directions.BitValuesDisjoint | maze_files/direction_definitions.py:37-42 | two different directions share no bit |
| Directions.OppositeInvolution | maze_files/direction_definitions.py:45-50 | the opposite of the opposite is the direction, and no direction is its own opposite |
| Directions.MoveDeltaUnit | maze_files/direction_definitions.py:54-59 | every move is one unit step, and the opposite direction's move is its negation |
| Directions.MoveDeltaInjective | maze_files/direction_definitions.py:52-59 | distinct directions move to distinct places |
| Bits.AndBit | maze_files/wall_operations.py:60 | a bit of `a & b` is set exactly when it is set in both |
| Bits.OrBit | maze_files/wall_operations.py:47 | a bit of `a \| b` is set exactly when it is set in either |
| Bits.AndNotBit | maze_files/wall_operations.py:38 | a bit of `a & ~b` is set exactly when it is set in a and not in b |
| Bits.AndPow2 | maze_files/wall_operations.py:60-63 | masking with a single bit is non-zero exactly when the cell has that bit |
| Bits.BitsDetermineValue | maze_files/wall_operations.py:33-39 | two masks with the same bits are equal |
| Bits.OrBelow | maze_files/wall_operations.py:47 | or-ing two values below 2^n stays below 2^n |
| WallOperations.RemoveAWall | maze_files/wall_operations.py:27-39 | the result has exactly the cell's bits minus the direction's bits, and is at most the cell |
| WallOperations.AddAWall | maze_files/wall_operations.py:42-48 | the result has exactly the cell's bits plus the direction's bits |
| WallOperations.IsItSolidWall | maze_files/wall_operations.py:51-63 | for a single-bit direction, true exactly when the cell has that bit |
| WallOperations.AllWallsOfClosed | maze_files/maze_definitions.py:61-66 | a cell of mask 15 has all four walls closed |
| WallOperations.RemoveNorthFromClosed | maze_files/wall_operations.py:33-35 | removing the north wall from 15 gives 14 |
| WallOperations.RemoveAWallSides | maze_files/wall_operations.py:27-39 | opening side d opens d and leaves the three other sides as they were |
| WallOperations.AddAWallSides | maze_files/wall_operations.py:42-48 | closing side d closes d and leaves the three other sides as they were |
| WallOperations.AddAWallIdempotent | maze_files/wall_operations.py:42-48 | adding a wall twice is adding it once |
| WallOperations.RemoveAWallIdempotent | maze_files/wall_operations.py:27-39 | removing a wall twice is removing it once |
| WallOperations.AddAfterRemove | maze_files/wall_operations.py:42-48 | closing a wall just opened restores the mask when the wall was closed before |
| WallOperations.PrimitivesInRange | maze_files/wall_operations.py:38-47 | on masks 0..15 and direction bits both primitives stay in 0..15 |
| WallOperations.DirectionBetween | maze_files/wall_operations.py:89-102 | some direction is found exactly when the cells are adjacent, and moving in it leads from the first cell to the second |
| WallOperations.MoveBack | maze_files/wall_operations.py:107-109 | a move followed by the opposite move returns to the start |
| WallOperations.CarveCheck | maze_files/wall_operations.py:75-84 | passes exactly for two in-grid adjacent cells; otherwise the first failing check (coord1 bounds, coord2 bounds, adjacency) with its error |
| WallOperations.SetCell | maze_files/wall_operations.py:112-113 | the grid with one cell replaced and every other cell and the shape unchanged |
| WallOperations.CarvedGridMasks | maze_files/wall_operations.py:104-113 | the carved grid is well formed, and each cell's mask is the one the carve computes for it |
| WallOperations.CarvedMaskSides | maze_files/wall_operations.py:104-113 | after a carve, a side of a cell is closed exactly when it was closed and is not the shared edge |
| WallOperations.CarvedCells | maze_files/wall_operations.py:86-113 | the two walls of the shared edge are opened, every other wall is as before, and every other cell is unchanged |
| WallOperations.CarveCoordinate | maze_files/wall_operations.py:66-115 | the outcome is the check's outcome; on success the grid is the carved grid, on failure it is unchanged; the maze stays valid |
| WallOperations.CoherentSidesAgree | validators.py:70-79 | the E/S-pair form of coherence is the same as "every wall facing an in-grid neighbour agrees with its opposite wall" |
| WallOperations.CoherentSide | validators.py:70-79 | on a coherent grid any side facing an in-grid neighbour agrees with that neighbour's opposite side |
| WallOperations.BordersClosedOutward | validators.py:155-181 | the four border loops together are the same as "every wall facing out of the grid is closed" |
| WallOperations.BorderSide | validators.py:155-181 | on a grid with closed borders, every outward-facing wall is closed |
| WallOperations.CarvePreservesCoherence | maze_files/wall_operations.py:104-113 | a carve keeps wall coherence |
| WallOperations.CarvePreservesBorders | maze_files/wall_operations.py:82-98 | a carve never opens an outer wall |
| WallOperations.CarveNeverCloses | maze_files/wall_operations.py:104-113 | no wall is closed by a carve, and both sides of the shared edge are open afterwards |
| WallOperations.CarveIdempotent | maze_files/wall_operations.py:66-115 | carving the same pair twice is carving it once |
| MazeDefinitions.AllClosed | maze_files/maze_definitions.py:64-67 | a well-formed width x height grid whose every cell is 15 |
| MazeDefinitions.ValidateMazeArgs | maze_files/maze_definitions.py:38-59 | passes exactly for positive dimensions, both endpoints inside and distinct; otherwise the first failed check in the order width, height, entry, exit, equality |
| MazeDefinitions.Maze.constructor | maze_files/maze_definitions.py:32-67 | stores the arguments and an all-15 grid of height rows of width cells |
| MazeDefinitions.Maze.IsInBounds | maze_files/maze_definitions.py:69-89 | true exactly when 0 <= x < width and 0 <= y < height |
| MazeDefinitions.Maze.CoordinateValidation | maze_files/maze_definitions.py:91-109 | the coordinate unchanged when in bounds, otherwise an OutOfBounds error carrying the given name |
| MazeDefinitions.Maze.EntryPoint | maze_files/maze_definitions.py:111-114 | coordinate validation under the name "entry" |
| MazeDefinitions.Maze.ExitPoint | maze_files/maze_definitions.py:116-119 | coordinate validation under the name "exit" |
| MazeDefinitions.NewMaze | maze_files/maze_definitions.py:32-67 | fails exactly when the constructor's checks fail, with their error; otherwise a fresh valid maze with all walls closed |
| GridChecks.FirstBadCell | output_writer.py:39-42 | none exactly when every cell of the row is in 0..15, otherwise the leftmost cell that is not |
| GridChecks.FirstBadInGrid | visualizer.py:160-167 | none exactly when every cell is in 0..15, otherwise the first offending cell in row-major order |
| GridChecks.ShapedValidIsWellFormed | visualizer.py:157-167 | the right shape with every cell in range is exactly the maze model's well-formedness |
| FortyTwoMarking.Translate | maze_files/forty_two_marking.py:68-73 | a cell is in the set exactly when some listed offset translated by the corner gives it |
| FortyTwoMarking.UnlistedOffset | maze_files/forty_two_marking.py:68-73 | an offset that is not listed gives no cell of the set |
| FortyTwoMarking.TranslateSize | maze_files/forty_two_marking.py:68-73 | distinct offsets give as many cells |
| FortyTwoMarking.IncreasingRanksDistinct | maze_files/forty_two_marking.py:48-67 | offsets listed in strictly increasing row-major order are distinct |
| FortyTwoMarking.StampOffsetsDistinct | maze_files/forty_two_marking.py:48-67 | the 18 offsets of the stamp are distinct |
| FortyTwoMarking.StampRanksIncrease | maze_files/forty_two_marking.py:48-67 | the stamp's offsets are listed row by row, left to right |
| FortyTwoMarking.Mark | maze_files/forty_two_marking.py:32-103 | too small exactly below 13 rows or 15 columns; a placed stamp is the offsets translated by the corner |
| FortyTwoMarking.FortyTwo | maze_files/forty_two_marking.py:32-103 | the forbidden set never holds the entry or the exit, has 0 or 18 cells, and lies in the grid |
| FortyTwoMarking.TooSmallIsEmpty | maze_files/forty_two_marking.py:38-40 | below 13 rows or 15 columns nothing is marked and the set is empty |
| FortyTwoMarking.StampPlacement | maze_files/forty_two_marking.py:42-73 | the corner is (width // 2 - 3, height // 2 - 2) and the stamp has 18 distinct cells |
| FortyTwoMarking.StampInsideMargin | maze_files/forty_two_marking.py:33-45 | every stamp cell lies in the grid with at least 4 cells between it and each edge |
| FortyTwoMarking.MarkingOutcomes | maze_files/forty_two_marking.py:75-103 | on a large enough maze: marked exactly when neither endpoint is on the stamp, otherwise skipped naming which endpoints are |
| FortyTwoMarking.ForbiddenAvoidsEndpoints | maze_files/forty_two_marking.py:75-103 | the returned set never holds the entry or the exit and is either empty or the full stamp |
| MultiplePathMaze.CheckNeighborPair | maze_files/multiple_path_maze.py:30-51 | true exactly when coord1's mask has the direction's bit |
| MultiplePathMaze.FlattenMember | maze_files/multiple_path_maze.py:76-91 | an element of the joined candidate lists is an element of one of them |
| MultiplePathMaze.FlattenDistinct | maze_files/multiple_path_maze.py:76-91 | duplicate-free lists sharing no element join to a duplicate-free list |
| MultiplePathMaze.RowCells | maze_files/multiple_path_maze.py:77-91 | one list per cell of the row, in column order, each that cell's E then S candidates |
| MultiplePathMaze.Rows | maze_files/multiple_path_maze.py:76-91 | one list per row, in row order, each the joined candidates of its cells |
| MultiplePathMaze.CellCandidatesMember | maze_files/multiple_path_maze.py:79-91 | a candidate is listed for (x, y) exactly when it starts there, goes E or S into the grid through a closed wall and neither cell is forbidden |
| MultiplePathMaze.RowMember | maze_files/multiple_path_maze.py:77-91 | a row's list holds exactly the candidates whose first cell lies in that row |
| MultiplePathMaze.RowDistinct | maze_files/multiple_path_maze.py:77-91 | no candidate is listed twice in a row |
| MultiplePathMaze.CandidatesExactly | maze_files/multiple_path_maze.py:76-91 | the scan lists exactly the candidates, each once |
| MultiplePathMaze.CandidatesUnordered | maze_files/multiple_path_maze.py:76-91 | no two listed candidates name the same pair of cells in either orientation |
| MultiplePathMaze.CandidateCarvable | maze_files/multiple_path_maze.py:105 | every candidate passes carve_coordinate's checks, and its direction is the direction between its cells |
| MultiplePathMaze.ScanCandidates | maze_files/multiple_path_maze.py:73-91 | the nested loops build exactly the candidate list |
| MultiplePathMaze.ScanRow | maze_files/multiple_path_maze.py:77-91 | one pass of the outer loop appends the row's candidates in order |
| MultiplePathMaze.ScanCell | maze_files/multiple_path_maze.py:79-91 | one pass of the inner loop appends the cell's E then S candidate |
| MultiplePathMaze.TargetCount | maze_files/multiple_path_maze.py:69-94 | max(1, width * height // 25) clamped to the candidates available: at most both, and equal to one of them |
| MultiplePathMaze.RemoveFirst | maze_files/multiple_path_maze.py:103 | one element shorter when the value is present, unchanged otherwise |
| MultiplePathMaze.RemoveFirstAt | maze_files/multiple_path_maze.py:99-103 | in a duplicate-free list, removing the picked value drops exactly the picked position |
| MultiplePathMaze.CarveAll | maze_files/multiple_path_maze.py:97-105 | carving a list of walls in order keeps the grid well formed |
| MultiplePathMaze.CarveAllWalls | maze_files/multiple_path_maze.py:97-105 | afterwards a wall is closed exactly when it was closed before and no listed carve opened it |
| MultiplePathMaze.CarveAllPreservesCoherence | maze_files/multiple_path_maze.py:105 | carving a list of walls keeps wall coherence |
| MultiplePathMaze.CarveAllPreservesBorders | maze_files/multiple_path_maze.py:105 | carving a list of walls keeps the outer border closed |
| MultiplePathMaze.CandidatesCarvable | maze_files/multiple_path_maze.py:99-105 | walls drawn from the candidate list all pass carve_coordinate's checks |
| MultiplePathMaze.MultiplePaths | maze_files/multiple_path_maze.py:54-105 | carves exactly TargetCount distinct candidates, in the order picked, and the new grid is the old one with those carved |
| MultiplePathMaze.PickStep | maze_files/multiple_path_maze.py:99-103 | moving the picked candidate from the remaining list to the carved list keeps them a split of all candidates |
| MultiplePathMaze.PickAndCarve | maze_files/multiple_path_maze.py:97-105 | one round: an arbitrary remaining candidate moves to the carved list, the rest keep splitting all candidates, and the grid becomes the start grid with the carved list carved in order |
| MultiplePathMaze.PickRemoved | maze_files/multiple_path_maze.py:99-103 | removing a position from a duplicate-free list loses that element and keeps every other |
| MultiplePathMaze.MultiplePathsEffect | maze_files/multiple_path_maze.py:94-105 | on a coherent maze with closed borders: both stay true, no wall is closed, and exactly the carved walls open, on both sides |
| BfsShortestPathSolver.Reversed | maze_files/bfs_shortest_path_solver.py:103 | the same elements in reverse order |
| BfsShortestPathSolver.PushKeepsLinks | maze_files/bfs_shortest_path_solver.py:84-88 | recording a new neighbour with the queue head as parent keeps every parent one step and one layer back |
| BfsShortestPathSolver.PushKeepsLayers | maze_files/bfs_shortest_path_solver.py:84-88 | enqueuing at one more than the head's distance keeps the queue in non-decreasing layers |
| BfsShortestPathSolver.PushKeepsState | maze_files/bfs_shortest_path_solver.py:84-88 | enqueuing an unvisited successor of the head keeps the search invariant |
| BfsShortestPathSolver.PopKeepsState | maze_files/bfs_shortest_path_solver.py:58-88 | dequeuing the head once all its successors are visited keeps the search invariant |
| BfsShortestPathSolver.WalkLengthBound | maze_files/bfs_shortest_path_solver.py:33-36 | no walk from the entry is shorter than the recorded distance of the cell it ends in, or than the next layer if it ends unvisited |
| BfsShortestPathSolver.ExpandedMonotone | maze_files/bfs_shortest_path_solver.py:68-88 | a neighbour once handled stays handled as more cells are visited |
| BfsShortestPathSolver.ExpandedWhenVisited | maze_files/bfs_shortest_path_solver.py:74-88 | a neighbour that admits no step, or is already visited, needs nothing more |
| BfsShortestPathSolver.TryNeighbour | maze_files/bfs_shortest_path_solver.py:69-88 | one neighbour test keeps the invariant, keeps the head and recorded distances, and handles that side |
| BfsShortestPathSolver.ExpandNeighbours | maze_files/bfs_shortest_path_solver.py:68-88 | the inner loop over DIRECTIONS handles all four sides of the head |
| BfsShortestPathSolver.AllDirectionsExpanded | maze_files/bfs_shortest_path_solver.py:68 | handling every entry of DIRECTIONS is handling every direction |
| BfsShortestPathSolver.ParentLink | maze_files/bfs_shortest_path_solver.py:55-88 | a visited cell has no parent exactly when it is the entry; otherwise its parent is visited, one step before it and one closer |
| BfsShortestPathSolver.ReversedChainIsWalk | maze_files/bfs_shortest_path_solver.py:96-103 | the reversed backtrace is a walk with no repeated cell |
| BfsShortestPathSolver.Backtrace | maze_files/bfs_shortest_path_solver.py:94-104 | a walk from the entry to the exit with no repeated cell and one more cell than the exit's distance |
| BfsShortestPathSolver.BfsShortestPath | maze_files/bfs_shortest_path_solver.py:28-104 | fails exactly when the exit is unreachable; otherwise a shortest walk from the entry to the exit with no repeated cell |
| MazeGraph.StepMove | maze_files/bfs_shortest_path_solver.py:68-85 | a step through side d is exactly: the neighbour is in bounds, the wall is open and the neighbour is not forbidden |
| MazeGraph.WalkExtend | maze_files/bfs_shortest_path_solver.py:84-88 | a walk extended by one step is a walk |
| MazeGraph.WalkLeavesThroughFrontier | validators.py:98-140 | a walk that leaves the visited set passes through a visited cell not yet expanded |
| MazeGraph.ClosedSetUnreachable | validators.py:98-140 | once every visited cell's successors are visited, nothing outside is reachable |
| Validators.CheckSharedWall | validators.py:40-68 | passes exactly when the two sides agree; otherwise a WallMismatch naming both cells and sides |
| Validators.CheckCell | validators.py:73-79 | passes exactly when the cell's E and S pairs agree; the E pair is checked first |
| Validators.WallScan | validators.py:70-79 | passes exactly when every cell from this one on is coherent; otherwise the first mismatch in scan order |
| Validators.WallScanFromStart | validators.py:70-79 | the scan from the first cell passes exactly on a coherent grid |
| Validators.WallValidator | validators.py:33-79 | passes exactly on a coherent grid; otherwise the first E/W or S/N mismatch in row-major order, E checked before S within a cell |
| Validators.BorderScan | validators.py:155-181 | one border loop passes exactly when its remaining cells are closed on that side; otherwise the first open one |
| Validators.ClosedBordersValidator | validators.py:143-182 | passes exactly when the borders are closed; otherwise the first open outward wall: the earlier sides in the order N, W, S, E are closed, and so is every earlier cell on its own side |
| Validators.BordersAsScans | validators.py:155-181 | the four border loops together check exactly the closed-border property |
| Validators.FreshMazePassesWallChecks | maze_files/maze_definitions.py:64-67 | an all-15 grid is coherent and has closed borders |
| Validators.ConnectionPush | validators.py:110-113 | appending an unvisited successor of the head to both lists keeps the search invariant |
| Validators.ConnectionPop | validators.py:138-140 | dropping the head once its successors are visited keeps the search invariant |
| Validators.VisitNeighbour | validators.py:106-113 | one neighbour check keeps the invariant and leaves a successor through that side visited |
| Validators.VisitTwo | validators.py:106-121 | two consecutive neighbour checks leave both successors visited |
| Validators.VisitNeighbours | validators.py:99-137 | the four checks leave every successor of the head visited |
| Validators.BfsConnectionValidator | validators.py:82-140 | the visited list starts at the entry, repeats no cell, and holds exactly the cells reachable from the entry |
| Validators.ConnectionComplete | validators.py:98-140 | once the queue is empty, the visited list is exactly the reachable cells |
| MazeGen.StepDirection | mazegen.py:230-240 | the direction of a unit step, none for any other pair |
| MazeGen.Letters | mazegen.py:227-244 | one letter per consecutive pair of a non-empty path |
| MazeGen.CoordsToDirections | mazegen.py:221-244 | "" below two points, otherwise one letter per pair |
| MazeGen.Replay | mazegen.py:203-207 | following letters visits one more cell than letters, starting at the start |
| MazeGen.LettersSucceed | mazegen.py:230-243 | the conversion succeeds exactly on paths of unit steps |
| MazeGen.LettersFirstError | mazegen.py:241-243 | a failure names the first pair that is not a unit step |
| MazeGen.CoordsToDirectionsOutcome | mazegen.py:223-244 | succeeds exactly on paths of unit steps; otherwise reports the first bad pair |
| MazeGen.ReplayRoundTrip | mazegen.py:203-240 | replaying the letters from the first cell reproduces the path |
| MazeGen.ReplayInverse | mazegen.py:203-240 | converting a replayed path gives back the letters |
| MazeGen.MazeGenerator.constructor | mazegen.py:95-105 | bound to the configuration, with no maze, no path and no forbidden cells |
| MazeGen.MazeGenerator.CurrentMaze | mazegen.py:107-118 | the stored maze, or NotGenerated before the first generation |
| MazeGen.MazeGenerator.CurrentGrid | mazegen.py:120-123 | the stored maze's grid, with the same error |
| MazeGen.MazeGenerator.ForbiddenCells | mazegen.py:125-132 | the stored forbidden set, as a value the caller cannot alias |
| MazeGen.MazeGenerator.PathAsWritten | mazegen.py:134-144 | the error before solving, and no value at all afterwards |
| MazeGen.MazeGenerator.Path | mazegen.py:134-144 | the error before solving, the stored path afterwards |
| MazeGen.MazeGenerator.CoordsToDirectionsOf | mazegen.py:218-225 | the given path's letters, or the stored path's, or PathNotSolved when there is neither |
| MazeGen.MazeGenerator.Generate | mazegen.py:146-173 | keeps the generator consistent with its configuration; a fresh all-closed maze from the configuration, path reset, forbidden set reset then the "42" set when asked for; on a rejected configuration nothing changes |
| MazeGen.PathPropertyDropsPath | mazegen.py:134-144 | with a path stored, the property as written yields nothing while the corrected one yields the path |
| AMazeIng.Steps | a_maze_ing.py:72-88 | one letter per consecutive pair of a non-empty path |
| AMazeIng.CoordsToPath | a_maze_ing.py:48-88 | "" for no coordinates and for one, otherwise one letter per pair |
| AMazeIng.StepsAgree | a_maze_ing.py:73-87 | the E, W, N, S test order gives the same letters and errors as the N, E, S, W order |
| AMazeIng.CoordsToPathAgrees | a_maze_ing.py:70-88 | _coords_to_path and coords_to_directions agree on every input |
| AMazeIng.CoordsToPathOutcome | a_maze_ing.py:73-87 | succeeds exactly on unit-step paths, then replays to the path; otherwise names the first non-adjacent pair |
| OutputWriter.CheckRow | output_writer.py:35-42 | passes exactly for a row of the width with cells in 0..15; width mismatch reported first, then the leftmost bad cell |
| OutputWriter.CheckRows | output_writer.py:35-42 | passes exactly when every remaining row is acceptable; otherwise the first failing row's error |
| OutputWriter.ValidateMazeGrid | output_writer.py:15-42 | passes exactly on an acceptable grid; the row count is checked first, then each row in order |
| OutputWriter.ValidateMazeGridWellFormed | output_writer.py:33-42 | for a grid of masks, passing the writer's checks is the maze model's well-formedness |
| OutputWriter.ValidatePath | output_writer.py:97-101 | passes exactly when every character is N, E, S or W; otherwise reports the first other one |
| OutputWriter.FormatCoord | output_writer.py:45-60 | a coordinate written as one line |
| OutputWriter.FormatCoordRoundTrip | output_writer.py:59-60 | the configuration reader's coordinate parser reads a formatted coordinate back |
| OutputWriter.HexRow | output_writer.py:106 | one character per cell and no newline |
| OutputWriter.HexRows | output_writer.py:105-107 | one newline-free line per row |
| OutputWriter.HexRowRoundTrip | output_writer.py:106 | decoding the hex digits of a row gives back the row |
| OutputWriter.OutputLines | output_writer.py:103-117 | height + 4 lines |
| OutputWriter.WriteOutput | output_writer.py:63-117 | succeeds exactly on an acceptable grid and path; grid errors come before path errors, as in the source, and a path error names the first character that is not N, E, S or W |
| OutputWriter.DecodeRows | output_writer.py:105-107 | a decoded list has one row per line |
| OutputWriter.PathNewlineFree | output_writer.py:97-101 | a validated path holds no newline |
| OutputWriter.OutputLinesNewlineFree | output_writer.py:103-117 | no output line contains a newline of its own |
| OutputWriter.DecodeRowsRoundTrip | output_writer.py:105-107 | decoding the hex lines gives back the grid |
| OutputWriter.HexRowsAt | output_writer.py:105-107 | hex line y is row y's digits |
| OutputWriter.WriteOutputLines | output_writer.py:103-117 | the text is the output lines, each ended by a newline, so it ends with one |
| OutputWriter.WriteOutputLayout | output_writer.py:103-117 | height lines of width hex digits that decode to the rows, a blank line, the entry, the exit, the path |
| OutputWriter.WriteOutputRoundTrip | output_writer.py:103-117 | a reader of the text recovers the grid, both endpoints and the path |
| ConfigParser.ParseBool | config_parser.py:49-63 | accepts exactly the true and false words after strip and lower-casing, with their value; InvalidBoolean otherwise |
| ConfigParser.ParseBoolSpellings | config_parser.py:58-62 | any letter case of an accepted word, padded with whitespace, reads as that word's value |
| ConfigParser.ParseBoolRejects | config_parser.py:63 | any other value is rejected with its text |
| ConfigParser.StrippedParts | config_parser.py:74 | one stripped piece per comma-separated piece |
| ConfigParser.ParseCoord | config_parser.py:66-83 | succeeds exactly with two pieces that both parse as integers, giving them; otherwise the wrong-count or not-integers error |
| ConfigParser.ParseCoordOfParts | config_parser.py:74-83 | two comma-free integer texts joined by a comma read as that coordinate |
| ConfigParser.ParseCoordPadded | config_parser.py:69-83 | two integers with whitespace around each, joined by a comma, read back as the coordinate |
| ConfigParser.ParseCoordFormatted | config_parser.py:66-83 | "x,y" reads back as (x, y) |
| ConfigParser.ParseLineCases | config_parser.py:110-122 | skipped exactly when blank or a comment; no '=' is bad syntax; else the key before the first '=' upper-cased and stripped (an error when empty) and the stripped value after it |
| ConfigParser.ParseLine | config_parser.py:111-122 | skipped exactly when the stripped line is blank or starts with '#'; an accepted key is non-empty and upper case |
| ConfigParser.Parsed | config_parser.py:110-122 | one parse per line, in order |
| ConfigParser.CollectPrefixFailure | config_parser.py:116-122 | once a prefix of the file fails, the file fails with the same error |
| ConfigParser.ReadLines | config_parser.py:107-123 | the loop computes the dictionary the lines collect to, or the first bad line's error |
| ConfigParser.CollectKeys | config_parser.py:118-123 | the collected keys are exactly those some line sets |
| ConfigParser.CollectLastWins | config_parser.py:123 | each key holds the value of the last line that sets it |
| ConfigParser.CollectFailure | config_parser.py:116-122 | a file fails exactly when one of its lines is bad, with the first bad line's error |
| ConfigParser.Missing | config_parser.py:125 | exactly the required keys the dictionary lacks |
| ConfigParser.MissingSorted | config_parser.py:125 | missing keys of a sorted list come out sorted |
| ConfigParser.RequiredKeysSorted | config_parser.py:125-127 | the required keys in the order sorted() gives, so the missing ones are reported sorted |
| ConfigParser.NothingMissing | config_parser.py:125-127 | nothing is missing exactly when every required key is present |
| ConfigParser.ParseDimensions | config_parser.py:129-136 | succeeds exactly when both are integers and both positive; the integer error comes before the positivity error |
| ConfigParser.ParseEndpoints | config_parser.py:138-152 | succeeds exactly when both parse, both are inside the grid and they differ; otherwise the entry's parse error, the exit's parse error, entry out of bounds, exit out of bounds, then equal endpoints, in that order |
| ConfigParser.ParseSeed | config_parser.py:160-166 | no seed exactly when absent or blank; otherwise the integer it parses as, or SeedNotInteger |
| ConfigParser.ValidateRest | config_parser.py:154-176 | fails with EmptyOutputFile, then InvalidBoolean, then SeedNotInteger, in that order; on success the configuration carries the given dimensions and endpoints, the stripped output name, PERFECT's value and the seed; when all three checks pass the configuration is accepted |
| ConfigParser.ValidateEndpoints | config_parser.py:138-176 | an endpoint error comes before any later error; on success the dimensions are kept and the endpoints are the parsed ones |
| ConfigParser.ValidateValues | config_parser.py:129-176 | a dimension error comes before every endpoint error; on success the configuration has the parsed dimensions and endpoints |
| ConfigParser.Validate | config_parser.py:124-176 | fails with the sorted missing keys exactly when a required key is absent; otherwise the value checks |
| ConfigParser.ValidateAcceptsMaze | config_parser.py:135-152 | an accepted configuration has positive dimensions and distinct endpoints inside the grid |
| ConfigParser.ValidateFields | config_parser.py:154-176 | an accepted configuration has a non-empty stripped output name, the PERFECT value and the parsed seed |
| ConfigParser.LoadConfig | config_parser.py:86-176 | collects the lines, then validates the dictionary |
| ConfigParser.Load | config_parser.py:86-176 | any bad line makes loading fail; an accepted configuration has positive dimensions and distinct in-bounds endpoints, as the Maze constructor demands |
| Text.Strip | config_parser.py:112 | neither end of the result is whitespace |
| Text.StripPadding | config_parser.py:69 | stripping whitespace around a text with visible ends gives the text |
| Text.Lower | config_parser.py:58 | each character lower-cased, the length kept |
| Text.Upper | config_parser.py:119 | each character upper-cased, the length kept |
| Text.FindFirst | config_parser.py:116-118 | none exactly when the character is absent, otherwise its first position |
| Text.Split | config_parser.py:74 | at least one piece, none holding the separator |
| Text.SplitJoin | config_parser.py:74 | joining the pieces of a split gives the text back |
| Text.SplitTwo | config_parser.py:118 | a text with one separator splits into its two sides |
| Text.IntToString | output_writer.py:60 | a non-empty text with visible ends, no comma and no newline |
| Text.ParseIntRoundTrip | config_parser.py:78-79 | int of str(n), with whitespace around it, is n |
| Text.HexRoundTrip | output_writer.py:106 | every value in 0..15 has a hex digit that reads back as the value |
| Text.JoinLines | visualizer.py:231 | joining lines by newlines and adding one is each line newline-terminated |
| Text.LinesEndWithNewline | visualizer.py:231 | text built from lines ends with a newline |
| Visualizer.WallConstants | visualizer.py:22-25 | the renderer's wall bits are the direction table's |
| Visualizer.HasWallBit | visualizer.py:66-77 | testing a single-bit mask is testing that bit of the cell |
| Visualizer.HasWall | visualizer.py:66-77 | for a single-bit mask, true exactly when the cell has that bit set |
| Visualizer.HasWallClosed | visualizer.py:66-77 | testing a direction's bit is asking whether that side is closed |
| Visualizer.Walk | visualizer.py:101-122 | on success one position per letter plus the entry, starting at the entry, all in the grid |
| Visualizer.WalkCells | visualizer.py:105-123 | on success the set holds the entry, and every cell of it is in the grid |
| Visualizer.WalkPrefixFails | visualizer.py:116-120 | once a prefix fails, the whole path fails with the same error |
| Visualizer.WalkStep | visualizer.py:106-122 | one more letter fails on a non-letter, fails on leaving the grid, or adds the move's cell |
| Visualizer.CellsOnPath | visualizer.py:80-123 | the loop computes the visited set of the walk, or its error |
| Visualizer.ReplaySnoc | visualizer.py:106-117 | replaying one more letter adds one move from the last cell, or fails on a non-letter |
| Visualizer.WalkIsReplay | visualizer.py:101-123 | the walk succeeds exactly when the entry and the replay stay in the grid, and it is then the replay |
| Visualizer.WalkOfConvertedPath | visualizer.py:105-122 | the letters of an in-grid coordinate path walk exactly that path and mark exactly its cells |
| Visualizer.WalkConvertsBack | visualizer.py:105-122 | converting a successful walk gives back the letters |
| Visualizer.Interior | visualizer.py:201-215 | a cell's interior holds no newline |
| Visualizer.HorizontalLine | visualizer.py:187-193 | 4n + 1 characters ending in '+' with no newline |
| Visualizer.MidCells | visualizer.py:196-215 | no newline; starts with the first cell's west side |
| Visualizer.MidLine | visualizer.py:195-220 | no newline; starts with the first cell's west side and ends with the last cell's east side |
| Visualizer.TopLines | visualizer.py:185-193 | one newline-free top line per row |
| Visualizer.MidLines | visualizer.py:195-220 | one newline-free middle line per row |
| Visualizer.Interleave | visualizer.py:185-220 | two lines per row, newline-free when both inputs are |
| Visualizer.InterleaveAt | visualizer.py:185-220 | line 2y is row y's top line and line 2y + 1 its middle line |
| Visualizer.InterleaveStep | visualizer.py:185-220 | one more row appends its two lines |
| Visualizer.Picture | visualizer.py:183-229 | 2 * height + 1 newline-free lines |
| Visualizer.PathCells | visualizer.py:172-175 | no cells for an empty path, otherwise the replayed path's cells or error |
| Visualizer.Render | visualizer.py:126-231 | succeeds exactly on a right-shaped grid of 0..15 cells with a valid path and dimensions the picture's indexing accepts; otherwise the shape error, then the first bad cell with its value, then the path error, then the IndexError of degenerate dimensions |
| Visualizer.DrawHorizontal | visualizer.py:187-193 | the loop builds the boundary line |
| Visualizer.DrawMid | visualizer.py:195-220 | the loop builds the middle line |
| Visualizer.DrawPicture | visualizer.py:183-229 | the index error exactly where the source's indexing fails, otherwise the picture |
| Visualizer.RenderAscii | visualizer.py:126-231 | the validation, path marking and picture construction compute the rendered text |
| Visualizer.HorizontalLineAt | visualizer.py:187-193 | cell x of a boundary line lies between two '+' and is "---" exactly when it has the wall |
| Visualizer.HorizontalLineWall | visualizer.py:187-193 | the cell's second character is '-' exactly when its side is closed |
| Visualizer.MidLineWalls | visualizer.py:196-219 | the middle line starts with '\|' exactly when the first cell's west wall is closed and ends with '\|' exactly when the last cell's east wall is |
| Visualizer.RenderLines | visualizer.py:231 | the text is the picture's 2 * height + 1 lines, each newline-terminated |
| Visualizer.PictureWalls | visualizer.py:185-229 | the north and bottom-row south walls of every cell, and each row's outer west and east walls, can be read back from the picture |
| Visualizer.RenderWalls | visualizer.py:185-231 | the same walls can be read back from the lines of the rendered text |

## Left out

- The DFS carver `maze_files/dfs_maze_generator.py` is not part of this model: its source is not available, so no perfect-maze property is claimed.
- MazeGen.MazeGenerator.Generate: stops after the forbidden cells are computed. The DFS carve and the extra-wall pass that `generate` then calls are not modelled. The source calls `multiple_path_maze` without its forbidden-cell argument (mazegen.py:183), and `generate` is declared as a property (mazegen.py:146).
- `solve_maze_path` is not modelled: it calls the solver without its forbidden-cell argument (mazegen.py:195). The solver itself is modelled as `BfsShortestPathSolver.BfsShortestPath`.
- MultiplePathMaze.MultiplePaths: `random.randint` becomes an arbitrary index within the remaining candidates. The carved walls are a ghost result. The random generator, its seeding and its reproducibility are not modelled.
- `main`, `get_state`, the interactive loop, screen clearing, `input` and `print` are not modelled. They are I/O around the engine.
- Visualizer.Render: colours, the palette, `color_mode` and every escape sequence are dropped. A cell interior keeps only its visible text. An absent path is the empty string and an absent forbidden set is the empty set. The maze object's `getattr` becomes explicit grid, width and height parameters.
- Visualizer.RenderWalls: reads back, for every cell, the north wall, and in the bottom row the south wall. It reads the west wall only of a row's first cell and the east wall only of its last. The inner west walls and the interiors sit at offsets that depend on the variable-length path marker, so they are not located.
- Because the path marker has five characters, middle lines are not all the same length. The model keeps this as written.
- OutputWriter.WriteOutput: the file is not opened or written. The text is returned, and `getattr` becomes explicit parameters.
- ConfigParser.LoadConfig: the file is not read. Its lines are the input.
- Text.ParseInt: models `int()` as an optional sign followed by decimal digits, with ASCII whitespace around them. Underscores, non-ASCII digits and Unicode whitespace are not accepted.
- Text.Strip, Text.Lower, Text.Upper: ASCII only. Unicode case mapping and Unicode whitespace are not modelled.
- The `isinstance(cell, int)` checks (output_writer.py:40, visualizer.py:163) are dropped: cells are integers by type.
- Error messages become tagged error kinds that carry the values the messages mention. The warning prints of forty_two_marking become the tag of the skip.
- MultiplePathMaze.CheckNeighborPair: takes a direction value, not a letter. Every call site passes "E" or "S".
- MazeGen.MazeGenerator.CoordsToDirectionsOf: with no coordinates it converts the stored path through the corrected `Path`. The property as written returns nothing (see Findings).
- `config_fuzzer.py` and `maze_files/__init__.py` are not part of this model.
- Two modelling choices are equivalent to the source:
  - The renderer's chain of per-letter `if`s is modelled as the direction table's lookup followed by one move.
  - The validator's one-sided bound checks (`y - 1 >= 0` and so on) are modelled as the neighbour's full bounds check, which is equivalent because the current cell lies in the grid.

## Findings

| source | as written | input that shows it | evidently intended | confidence | as-written member | corrected member |
|---|---|---|---|---|---|---|
| mazegen.py:134-144 | the `path` property raises when no path is stored but has no `return`, so it yields None once a path is stored | any generator whose `_path` holds a list (set directly, or once the solver call at mazegen.py:195 passes `forbidden_cells`): `path` gives None, so `coords_to_directions()` then fails on `len(None)`; `MazeGen.PathPropertyDropsPath` states it. The bug is latent: as written, mazegen.py:195 raises a TypeError before `_path` is assigned | return the stored path | not executed | MazeGen.MazeGenerator.PathAsWritten | MazeGen.MazeGenerator.Path |
