/**
 * a_maze_ing: the command-line program's own conversion of a coordinate
 * path into direction letters, which tests the four unit steps in the
 * order E, W, N, S.
 */
module AMazeIng {
  import opened Wrappers
  import opened Directions
  import opened MazeDefinitions
  import opened WallOperations
  import opened MazeGen

  /** The letters of every consecutive pair of a non-empty path, each step compared in the order E, W, N, S. */
  function Steps(coords: seq<Coord>): (r: Result<string, MazeError>)
    requires |coords| >= 1
    ensures r.Success? ==> |r.value| == |coords| - 1
    decreases |coords|
  {
    if |coords| == 1 then Success("")
    else
      match DirectionBetween(coords[0], coords[1])
      case None => Failure(NonAdjacentStep(coords[0], coords[1]))
      case Some(d) =>
        match Steps(coords[1..])
        case Failure(e) => Failure(e)
        case Success(rest) => Success([Letter(d)] + rest)
  }

  /** _coords_to_path: "" for no coordinates, and for one, since there is no pair. */
  function CoordsToPath(coords: seq<Coord>): (r: Result<string, MazeError>)
    ensures |coords| <= 1 ==> r == Success("")
    ensures r.Success? ==> |r.value| == if coords == [] then 0 else |coords| - 1
  {
    if coords == [] then Success("") else Steps(coords)
  }

  /** Both converters give the same letters, or fail on the same pair, for every path. */
  lemma {:induction false} StepsAgree(coords: seq<Coord>)
    requires |coords| >= 1
    ensures Steps(coords) == Letters(coords)
    decreases |coords|
  {
    if |coords| > 1 {
      StepsAgree(coords[1..]);
    }
  }

  /** _coords_to_path and MazeGenerator.coords_to_directions agree on every input. */
  lemma CoordsToPathAgrees(coords: seq<Coord>)
    ensures CoordsToPath(coords) == CoordsToDirections(coords)
  {
    if |coords| >= 2 {
      StepsAgree(coords);
    }
  }

  /**
   * It succeeds exactly on paths of unit steps, then spelling one letter per
   * step that replays to the path, and otherwise reports the first pair that
   * is not a unit step.
   */
  lemma CoordsToPathOutcome(coords: seq<Coord>)
    ensures CoordsToPath(coords).Success? <==> AllSteps(coords)
    ensures CoordsToPath(coords).Success? && |coords| >= 1 ==>
              Replay(coords[0], CoordsToPath(coords).value) == Some(coords)
    ensures CoordsToPath(coords).Failure? ==>
              exists i :: && 0 <= i < |coords| - 1
                          && CoordsToPath(coords).error == NonAdjacentStep(coords[i], coords[i + 1])
                          && !Adjacent(coords[i], coords[i + 1])
  {
    CoordsToPathAgrees(coords);
    CoordsToDirectionsOutcome(coords);
    if CoordsToPath(coords).Success? && |coords| >= 1 {
      ReplayRoundTrip(coords, CoordsToPath(coords).value);
    }
  }
}
