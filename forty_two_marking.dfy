/**
 * forty_two_marking: the "42" stencil. On a maze large enough to hold the
 * 7 x 5 stamp with a margin of 4 cells on every side, the stamp's 18 cells
 * are placed around the centre; if the entry or the exit falls on one of
 * them the stencil is skipped. The maze itself is never changed.
 */
module FortyTwoMarking {
  import opened MazeDefinitions
  import opened MazeGraph

  const STAMP_HEIGHT: int := 5
  const STAMP_WIDTH: int := 7
  const BORDER_MARGIN: int := 4

  /** The stamp's cells as (column, row) offsets from its top-left corner, in the order the source lists them. */
  const CELLS_TO_BE_BLOCKED: seq<(int, int)> := [
    (0, 0), (4, 0), (5, 0), (6, 0),
    (0, 1), (6, 1),
    (0, 2), (1, 2), (2, 2), (4, 2), (5, 2), (6, 2),
    (2, 3), (4, 3),
    (2, 4), (4, 4), (5, 4), (6, 4)
  ]

  /** Which endpoint fell on the stamp; the source prints a different warning for each. */
  datatype Conflict = BothEndpoints | EntryOnly | ExitOnly

  /** The outcome of the stencil: the maze is too small, the stamp is placed, or it is skipped for a conflict. */
  datatype Marking = TooSmall | Marked(cells: set<Coord>) | Skipped(conflict: Conflict)

  /**
   * The top-left corner of the stamp: the centre less half the stamp. Python's
   * floor division and Dafny's Euclidean division agree for a divisor of 2.
   */
  function TopLeft(width: int, height: int): Coord
  {
    Coord(width / 2 - STAMP_WIDTH / 2, height / 2 - STAMP_HEIGHT / 2)
  }

  /** The cell an offset names once the stamp's corner is fixed. */
  function Cell(corner: Coord, offset: (int, int)): Coord
  {
    Coord(corner.x + offset.0, corner.y + offset.1)
  }

  /** The offsets translated by the corner, one cell added per offset as the source's loop does. */
  function Translate(offsets: seq<(int, int)>, corner: Coord): (r: set<Coord>)
    ensures forall c :: c in r <==> exists i :: 0 <= i < |offsets| && c == Cell(corner, offsets[i])
  {
    if offsets == [] then {}
    else
      var rest := Translate(offsets[1..], corner);
      assert forall i :: 1 <= i < |offsets| ==> offsets[i] == offsets[1..][i - 1];
      {Cell(corner, offsets[0])} + rest
  }

  /** An offset that is not listed does not name a translated cell. */
  lemma UnlistedOffset(offsets: seq<(int, int)>, corner: Coord, o: (int, int))
    requires o !in offsets
    ensures Cell(corner, o) !in Translate(offsets, corner)
  {
    forall i | 0 <= i < |offsets| ensures Cell(corner, o) != Cell(corner, offsets[i]) {
      assert o != offsets[i];
      assert o.0 != offsets[i].0 || o.1 != offsets[i].1;
    }
  }

  /** Distinct offsets give as many cells. */
  lemma {:induction false} TranslateSize(offsets: seq<(int, int)>, corner: Coord)
    requires Distinct(offsets)
    ensures |Translate(offsets, corner)| == |offsets|
  {
    if offsets != [] {
      var rest := offsets[1..];
      assert Distinct(rest) by {
        forall i, j | 0 <= i < j < |rest| ensures rest[i] != rest[j] {
          assert rest[i] == offsets[i + 1] && rest[j] == offsets[j + 1];
        }
      }
      assert offsets[0] !in rest by {
        forall i | 0 <= i < |rest| ensures offsets[0] != rest[i] {
          assert rest[i] == offsets[i + 1];
        }
      }
      TranslateSize(rest, corner);
      UnlistedOffset(rest, corner, offsets[0]);
    }
  }

  /** Row-major rank of an offset: smaller row first, then smaller column. */
  function Rank(p: (int, int)): int
  {
    p.1 * STAMP_WIDTH + p.0
  }

  /** Ranks that increase from each offset to the next increase between any two offsets. */
  lemma {:induction false} RankIncreasing(offsets: seq<(int, int)>, i: int, j: int)
    requires forall k :: 0 <= k < |offsets| - 1 ==> Rank(offsets[k]) < Rank(offsets[k + 1])
    requires 0 <= i < j < |offsets|
    ensures Rank(offsets[i]) < Rank(offsets[j])
    decreases j - i
  {
    if i + 1 < j {
      RankIncreasing(offsets, i + 1, j);
    }
  }

  /** Offsets whose ranks increase from each one to the next are distinct. */
  lemma IncreasingRanksDistinct(offsets: seq<(int, int)>)
    requires forall i :: 0 <= i < |offsets| - 1 ==> Rank(offsets[i]) < Rank(offsets[i + 1])
    ensures Distinct(offsets)
  {
    forall i, j | 0 <= i < j < |offsets| ensures Rank(offsets[i]) < Rank(offsets[j]) {
      RankIncreasing(offsets, i, j);
    }
  }

  /** No offset of the stamp is listed twice. */
  lemma StampOffsetsDistinct()
    ensures Distinct(CELLS_TO_BE_BLOCKED)
  {
    StampRanksIncrease();
    IncreasingRanksDistinct(CELLS_TO_BE_BLOCKED);
  }

  /** The source lists the stamp's offsets row by row, left to right. */
  lemma StampRanksIncrease()
    ensures forall i :: 0 <= i < |CELLS_TO_BE_BLOCKED| - 1 ==> Rank(CELLS_TO_BE_BLOCKED[i]) < Rank(CELLS_TO_BE_BLOCKED[i + 1])
  {
  }

  /** forty_two_marking, with each warning print turned into the tag of the skip. */
  function Mark(width: int, height: int, entry: Coord, exit: Coord): (r: Marking)
    ensures (height < STAMP_HEIGHT + 2 * BORDER_MARGIN || width < STAMP_WIDTH + 2 * BORDER_MARGIN) <==> r == TooSmall
    ensures r.Marked? ==> r.cells == Translate(CELLS_TO_BE_BLOCKED, TopLeft(width, height))
  {
    if height < STAMP_HEIGHT + 2 * BORDER_MARGIN || width < STAMP_WIDTH + 2 * BORDER_MARGIN then TooSmall
    else
      var cells := Translate(CELLS_TO_BE_BLOCKED, TopLeft(width, height));
      if entry in cells && exit in cells then Skipped(BothEndpoints)
      else if entry in cells then Skipped(EntryOnly)
      else if exit in cells then Skipped(ExitOnly)
      else Marked(cells)
  }

  /** The set the source returns: the placed cells, or the empty set. */
  function ForbiddenOf(m: Marking): set<Coord>
  {
    if m.Marked? then m.cells else {}
  }

  /** forty_two_marking(maze): the forbidden cells for a maze; only its dimensions and endpoints are read. */
  function FortyTwo(maze: Maze): (r: set<Coord>)
    ensures maze.entry !in r && maze.exit !in r
    ensures |r| == 0 || |r| == 18
    ensures forall c :: c in r ==> InBounds(c, maze.width, maze.height)
  {
    var w, h := maze.width, maze.height;
    ForbiddenAvoidsEndpoints(w, h, maze.entry, maze.exit);
    StampPlacement(w, h);
    if h >= 13 && w >= 15 then
      StampInsideMargin(w, h);
      ForbiddenOf(Mark(w, h, maze.entry, maze.exit))
    else
      ForbiddenOf(Mark(w, h, maze.entry, maze.exit))
  }

  /** Below 13 rows or 15 columns nothing is marked. */
  lemma TooSmallIsEmpty(width: int, height: int, entry: Coord, exit: Coord)
    requires height < 13 || width < 15
    ensures Mark(width, height, entry, exit) == TooSmall
    ensures ForbiddenOf(Mark(width, height, entry, exit)) == {}
  {
  }

  /** Otherwise the stamp is placed at (width // 2 - 3, height // 2 - 2) and has 18 distinct cells. */
  lemma StampPlacement(width: int, height: int)
    ensures TopLeft(width, height) == Coord(width / 2 - 3, height / 2 - 2)
    ensures |Translate(CELLS_TO_BE_BLOCKED, TopLeft(width, height))| == 18
  {
    StampOffsetsDistinct();
    TranslateSize(CELLS_TO_BE_BLOCKED, TopLeft(width, height));
  }

  /** Every stamp cell lies in the grid with at least 4 free cells between it and each edge. */
  lemma StampInsideMargin(width: int, height: int)
    requires height >= 13 && width >= 15
    ensures forall c :: c in Translate(CELLS_TO_BE_BLOCKED, TopLeft(width, height)) ==>
              && InBounds(c, width, height)
              && BORDER_MARGIN <= c.x && c.x + BORDER_MARGIN < width
              && BORDER_MARGIN <= c.y && c.y + BORDER_MARGIN < height
  {
    forall i | 0 <= i < |CELLS_TO_BE_BLOCKED|
      ensures 0 <= CELLS_TO_BE_BLOCKED[i].0 < STAMP_WIDTH && 0 <= CELLS_TO_BE_BLOCKED[i].1 < STAMP_HEIGHT
    {
    }
  }

  /** The outcome is exactly one of: too small, marked without either endpoint, or skipped naming the endpoints on the stamp. */
  lemma MarkingOutcomes(width: int, height: int, entry: Coord, exit: Coord)
    requires height >= 13 && width >= 15
    ensures var cells := Translate(CELLS_TO_BE_BLOCKED, TopLeft(width, height));
            && (Mark(width, height, entry, exit).Marked? <==> entry !in cells && exit !in cells)
            && (Mark(width, height, entry, exit) == Skipped(BothEndpoints) <==> entry in cells && exit in cells)
            && (Mark(width, height, entry, exit) == Skipped(EntryOnly) <==> entry in cells && exit !in cells)
            && (Mark(width, height, entry, exit) == Skipped(ExitOnly) <==> entry !in cells && exit in cells)
  {
  }

  /** The returned set never holds the entry or the exit, and is empty or the full 18-cell stamp. */
  lemma ForbiddenAvoidsEndpoints(width: int, height: int, entry: Coord, exit: Coord)
    ensures var f := ForbiddenOf(Mark(width, height, entry, exit));
            && entry !in f && exit !in f
            && (f == {} || f == Translate(CELLS_TO_BE_BLOCKED, TopLeft(width, height)))
  {
  }
}
