/**
 * mazegen: the generator object that owns the maze, the forbidden "42"
 * cells and the last solved path, and the conversion of a coordinate path
 * into its direction letters.
 */
module MazeGen {
  import opened Wrappers
  import opened Directions
  import opened MazeDefinitions
  import opened WallOperations
  import opened MazeGraph
  import opened FortyTwoMarking

  /** ConfigGen: what the generator is built from. */
  datatype ConfigGen = ConfigGen(width: int, height: int, entry: Coord, exit: Coord,
                                 seed: int, perfect: bool, marking42: bool)

  /** The direction of a unit step, compared in the order N, E, S, W. */
  function StepDirection(a: Coord, b: Coord): (r: Option<Direction>)
    ensures r == DirectionBetween(a, b)
  {
    var dx, dy := b.x - a.x, b.y - a.y;
    if dx == 0 && dy == -1 then Some(N)
    else if dx == 1 && dy == 0 then Some(E)
    else if dx == 0 && dy == 1 then Some(S)
    else if dx == -1 && dy == 0 then Some(W)
    else None
  }

  /** The letters of every consecutive pair of a non-empty path; the first non-adjacent pair is the error. */
  function Letters(coords: seq<Coord>): (r: Result<string, MazeError>)
    requires |coords| >= 1
    ensures r.Success? ==> |r.value| == |coords| - 1
    decreases |coords|
  {
    if |coords| == 1 then Success("")
    else
      match StepDirection(coords[0], coords[1])
      case None => Failure(NonAdjacentStep(coords[0], coords[1]))
      case Some(d) =>
        match Letters(coords[1..])
        case Failure(e) => Failure(e)
        case Success(rest) => Success([Letter(d)] + rest)
  }

  /** coords_to_directions on an explicit list: no letters below two points. */
  function CoordsToDirections(coords: seq<Coord>): (r: Result<string, MazeError>)
    ensures |coords| < 2 ==> r == Success("")
    ensures r.Success? ==> |r.value| == if |coords| < 2 then 0 else |coords| - 1
  {
    if |coords| < 2 then Success("") else Letters(coords)
  }

  /** Every consecutive pair of the path is a unit step. */
  predicate AllSteps(coords: seq<Coord>)
  {
    forall i :: 0 <= i < |coords| - 1 ==> Adjacent(coords[i], coords[i + 1])
  }

  /** The cells visited by following path letters from start; None at the first letter that is not N, E, S or W. */
  function Replay(start: Coord, letters: string): (r: Option<seq<Coord>>)
    ensures r.Some? ==> |r.value| == |letters| + 1 && r.value[0] == start
    decreases |letters|
  {
    if letters == [] then Some([start])
    else
      match FromLetter(letters[0])
      case None => None
      case Some(d) =>
        match Replay(Move(start, d), letters[1..])
        case None => None
        case Some(p) => Some([start] + p)
  }

  /** The conversion succeeds exactly on paths made of unit steps. */
  lemma {:induction false} LettersSucceed(coords: seq<Coord>)
    requires |coords| >= 1
    ensures Letters(coords).Success? <==> AllSteps(coords)
    decreases |coords|
  {
    if |coords| > 1 {
      var rest := coords[1..];
      LettersSucceed(rest);
      assert forall i :: 0 <= i < |rest| ==> rest[i] == coords[i + 1];
      if AllSteps(coords) {
        assert Adjacent(coords[0], coords[1]);
        assert AllSteps(rest);
      }
      if Letters(coords).Success? {
        assert AllSteps(rest);
        forall i | 0 <= i < |coords| - 1 ensures Adjacent(coords[i], coords[i + 1]) {
          if i > 0 {
            assert Adjacent(rest[i - 1], rest[i]);
          }
        }
      }
    }
  }

  /** A failure names the first pair of the path that is not a unit step. */
  lemma {:induction false} LettersFirstError(coords: seq<Coord>)
    requires |coords| >= 1 && Letters(coords).Failure?
    ensures exists i :: && 0 <= i < |coords| - 1
                        && Letters(coords).error == NonAdjacentStep(coords[i], coords[i + 1])
                        && !Adjacent(coords[i], coords[i + 1])
                        && AllSteps(coords[..i + 1])
    decreases |coords|
  {
    if StepDirection(coords[0], coords[1]).None? {
      assert AllSteps(coords[..1]);
      assert !Adjacent(coords[0], coords[1]);
    } else {
      var rest := coords[1..];
      LettersFirstError(rest);
      var i :| && 0 <= i < |rest| - 1
               && Letters(rest).error == NonAdjacentStep(rest[i], rest[i + 1])
               && !Adjacent(rest[i], rest[i + 1])
               && AllSteps(rest[..i + 1]);
      assert rest[i] == coords[i + 1] && rest[i + 1] == coords[i + 2];
      var prefix, restPrefix := coords[..i + 2], rest[..i + 1];
      forall j | 0 <= j < |prefix| - 1 ensures Adjacent(prefix[j], prefix[j + 1]) {
        if j > 0 {
          assert prefix[j] == restPrefix[j - 1];
          assert prefix[j + 1] == restPrefix[j];
        }
      }
    }
  }

  /** Success exactly on unit-step paths; otherwise the first bad pair is reported. */
  lemma CoordsToDirectionsOutcome(coords: seq<Coord>)
    ensures CoordsToDirections(coords).Success? <==> AllSteps(coords)
    ensures CoordsToDirections(coords).Failure? ==>
              exists i :: && 0 <= i < |coords| - 1
                          && CoordsToDirections(coords).error == NonAdjacentStep(coords[i], coords[i + 1])
                          && !Adjacent(coords[i], coords[i + 1])
                          && AllSteps(coords[..i + 1])
  {
    if |coords| >= 1 {
      LettersSucceed(coords);
      if CoordsToDirections(coords).Failure? {
        LettersFirstError(coords);
      }
    }
  }

  /** Following the letters from the path's first cell reproduces the path. */
  lemma {:induction false} ReplayRoundTrip(coords: seq<Coord>, letters: string)
    requires |coords| >= 1 && CoordsToDirections(coords) == Success(letters)
    ensures Replay(coords[0], letters) == Some(coords)
    decreases |coords|
  {
    if |coords| >= 2 {
      var d := StepDirection(coords[0], coords[1]).value;
      var rest := coords[1..];
      var tail := Letters(rest).value;
      assert letters == [Letter(d)] + tail;
      LetterRoundTrip(d);
      assert letters[0] == Letter(d) && letters[1..] == tail;
      assert Move(coords[0], d) == rest[0];
      ReplayRoundTrip(rest, tail);
      assert FromLetter(letters[0]) == Some(d);
      assert Replay(Move(coords[0], d), letters[1..]) == Some(rest);
      assert Replay(coords[0], letters) == Some([coords[0]] + rest);
      assert coords == [coords[0]] + rest;
    } else {
      assert coords == [coords[0]];
    }
  }

  /** Converting a replayed walk gives back the letters it was replayed from. */
  lemma {:induction false} ReplayInverse(start: Coord, letters: string, p: seq<Coord>)
    requires Replay(start, letters) == Some(p)
    ensures CoordsToDirections(p) == Success(letters)
    decreases |letters|
  {
    if letters != [] {
      var d := FromLetter(letters[0]).value;
      var rest := Replay(Move(start, d), letters[1..]).value;
      ReplayInverse(Move(start, d), letters[1..], rest);
      assert p == [start] + rest && p[1..] == rest;
      DirectionBetweenMove(start, d);
      assert letters == [Letter(d)] + letters[1..];
    }
  }

  class MazeGenerator {
    const cfg: ConfigGen
    var maze: Maze?
    var path: Option<seq<Coord>>
    var forbidden: set<Coord>

    /** A stored maze is well formed and built from the configuration. */
    ghost predicate Valid()
      reads this, maze
    {
      maze != null ==>
        && maze.Valid()
        && maze.width == cfg.width && maze.height == cfg.height
        && maze.entry == cfg.entry && maze.exit == cfg.exit
    }

    /** A generator bound to a configuration, with nothing generated or solved yet. */
    constructor (cfg: ConfigGen)
      ensures this.cfg == cfg && maze == null && path == None && forbidden == {}
      ensures Valid()
    {
      this.cfg := cfg;
      maze := null;
      path := None;
      forbidden := {};
    }

    /** The maze property: the stored maze, or an error before the first generation. */
    function CurrentMaze(): (r: Result<Maze, MazeError>)
      reads this
      ensures r.Failure? <==> maze == null
      ensures r.Failure? ==> r.error == NotGenerated
      ensures r.Success? ==> r.value == maze
    {
      if maze == null then Failure(NotGenerated) else Success(maze)
    }

    /** The grid property: the stored maze's grid, with the same error. */
    function CurrentGrid(): (r: Result<Grid, MazeError>)
      reads this, maze
      ensures r.Failure? <==> maze == null
      ensures r.Failure? ==> r.error == NotGenerated
      ensures r.Success? ==> maze != null && r.value == maze.grid
    {
      match CurrentMaze()
      case Failure(e) => Failure(e)
      case Success(m) => Success(m.grid)
    }

    /** The forbidden_cells property; a set is a value, so the caller's copy cannot alias the stored one. */
    function ForbiddenCells(): (r: set<Coord>)
      reads this
      ensures r == forbidden
    {
      forbidden
    }

    /** The path property as written: the error before solving, and no value at all afterwards. */
    function PathAsWritten(): (r: Result<Option<seq<Coord>>, MazeError>)
      reads this
      ensures r.Failure? <==> path.None?
      ensures r.Failure? ==> r.error == PathNotSolved
      ensures r.Success? ==> r.value.None?
    {
      if path.None? then Failure(PathNotSolved) else Success(None)
    }

    /** The path property as intended: the error before solving, the stored path afterwards. */
    function Path(): (r: Result<seq<Coord>, MazeError>)
      reads this
      ensures r.Failure? <==> path.None?
      ensures r.Failure? ==> r.error == PathNotSolved
      ensures r.Success? ==> path == Some(r.value)
    {
      if path.None? then Failure(PathNotSolved) else Success(path.value)
    }

    /**
     * coords_to_directions: the given path's letters, or, when no path is given,
     * the letters of the stored path (an error when nothing has been solved).
     */
    function CoordsToDirectionsOf(coords: Option<seq<Coord>>): (r: Result<string, MazeError>)
      reads this
      ensures coords.Some? ==> r == CoordsToDirections(coords.value)
      ensures coords.None? && path.None? ==> r == Failure(PathNotSolved)
      ensures coords.None? && path.Some? ==> r == CoordsToDirections(path.value)
    {
      match coords
      case Some(cs) => CoordsToDirections(cs)
      case None =>
        match Path()
        case Failure(e) => Failure(e)
        case Success(p) => CoordsToDirections(p)
    }

    /**
     * generate, up to the carving: a fresh all-closed maze from the
     * configuration, the derived state reset, and the "42" cells reserved
     * when asked for. When the configuration is rejected nothing changes.
     */
    method Generate() returns (r: Result<Maze, MazeError>)
      requires Valid()
      modifies this
      ensures Valid()
      ensures r.Failure? <==> ValidateMazeArgs(cfg.height, cfg.width, cfg.entry, cfg.exit).Fail?
      ensures r.Failure? ==> && r.error == ValidateMazeArgs(cfg.height, cfg.width, cfg.entry, cfg.exit).error
                             && maze == old(maze) && path == old(path) && forbidden == old(forbidden)
      ensures r.Success? ==> && maze == r.value && fresh(maze) && Valid()
                             && maze.grid == AllClosed(cfg.width, cfg.height)
                             && path == None
                             && forbidden == (if cfg.marking42 then FortyTwo(maze) else {})
    {
      var created := NewMaze(cfg.height, cfg.width, cfg.entry, cfg.exit);
      if created.Failure? {
        return Failure(created.error);
      }
      var m := created.value;
      maze := m;
      path := None;
      forbidden := {};
      if cfg.marking42 {
        forbidden := FortyTwo(m);
      }
      return Success(m);
    }
  }

  /** Once a path is stored, the property as written yields nothing where the stored path was meant. */
  lemma PathPropertyDropsPath(g: MazeGenerator)
    requires g.path.Some?
    ensures g.PathAsWritten() == Success(None)
    ensures g.Path() == Success(g.path.value)
  {
  }
}
