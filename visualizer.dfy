/**
 * visualizer: the wall test on a cell mask, the replay of a path string
 * into the set of cells it visits, and the validation and line structure of
 * the ASCII picture of a maze. Colours, escape sequences and the
 * interactive loop are not part of the model.
 */
module Visualizer {
  import opened Wrappers
  import opened Bits
  import opened Directions
  import opened MazeDefinitions
  import opened WallOperations
  import opened GridChecks
  import opened MazeGen
  import opened Text

  /** The wall bits the renderer tests. */
  const NORTH: nat := 1
  const EAST: nat := 2
  const SOUTH: nat := 4
  const WEST: nat := 8

  /** Why the path replay or the renderer refuses its input. */
  datatype RenderError =
    | EntryOutOfBounds(entry: Coord)
    | InvalidPathChar(ch: char)
    | PathOutOfBounds
    | ShapeMismatch
    | InvalidCell(x: int, y: int, value: int)
    | IndexError

  /** The renderer's wall bits are the direction table's. */
  lemma WallConstants()
    ensures NORTH == DirBitValue(N) && EAST == DirBitValue(E)
    ensures SOUTH == DirBitValue(S) && WEST == DirBitValue(W)
  {
  }

  // ---- _has_wall ----

  /** _has_wall: the cell and the bit share a set bit. */
  predicate HasWall(cell: nat, bit: nat)
    ensures forall k: nat :: bit == Pow2(k) ==> (HasWall(cell, bit) <==> TestBit(cell, k))
  {
    forall k: nat | bit == Pow2(k) ensures (And(cell, bit) != 0) == TestBit(cell, k) {
      AndPow2(cell, k);
    }
    And(cell, bit) != 0
  }

  /** Testing a single-bit mask is testing that bit of the cell. */
  lemma HasWallBit(cell: nat, k: nat)
    ensures HasWall(cell, Pow2(k)) == TestBit(cell, k)
  {
    AndPow2(cell, k);
  }

  /** Testing a direction's bit is asking whether that side of the cell is closed. */
  lemma HasWallClosed(cell: nat, d: Direction)
    ensures HasWall(cell, DirBitValue(d)) == Closed(cell, d)
  {
    BitValuesAreSingleBits();
    HasWallBit(cell, BitIndex(d));
    ClosedIsBit(cell, d);
  }

  // ---- _cells_on_path ----

  /** Every position of the walk lies inside the grid. */
  predicate AllInBounds(cs: seq<Coord>, width: int, height: int)
  {
    forall i :: 0 <= i < |cs| ==> InBounds(cs[i], width, height)
  }

  /**
   * The positions visited by following the path letters from the entry, in
   * order: the entry is checked first, then each letter in turn, and the
   * first failure is the error.
   */
  function Walk(entry: Coord, path: string, width: int, height: int): (r: Result<seq<Coord>, RenderError>)
    ensures r.Success? ==> |r.value| == |path| + 1 && r.value[0] == entry && AllInBounds(r.value, width, height)
    decreases |path|
  {
    if path == [] then
      if InBounds(entry, width, height) then Success([entry]) else Failure(EntryOutOfBounds(entry))
    else
      match Walk(entry, path[..|path| - 1], width, height)
      case Failure(e) => Failure(e)
      case Success(cs) =>
        match FromLetter(path[|path| - 1])
        case None => Failure(InvalidPathChar(path[|path| - 1]))
        case Some(d) =>
          var next := Move(cs[|cs| - 1], d);
          if InBounds(next, width, height) then Success(cs + [next]) else Failure(PathOutOfBounds)
  }

  /** The set of positions of a walk. */
  function Cells(cs: seq<Coord>): (s: set<Coord>)
    ensures forall c :: c in s <==> c in cs
  {
    set c | c in cs
  }

  /** What _cells_on_path returns: the visited set of the walk, or its error. */
  function WalkCells(entry: Coord, path: string, width: int, height: int): (r: Result<set<Coord>, RenderError>)
    ensures r.Success? ==> entry in r.value && forall c :: c in r.value ==> InBounds(c, width, height)
  {
    match Walk(entry, path, width, height)
    case Failure(e) => Failure(e)
    case Success(cs) => Success(Cells(cs))
  }

  /** Once a prefix of the path fails, the whole path fails with the same error. */
  lemma {:induction false} WalkPrefixFails(entry: Coord, path: string, n: nat, width: int, height: int)
    requires n <= |path| && Walk(entry, path[..n], width, height).Failure?
    ensures Walk(entry, path, width, height) == Walk(entry, path[..n], width, height)
    decreases |path| - n
  {
    if n < |path| {
      var p := path[..n + 1];
      assert p[..|p| - 1] == path[..n];
      WalkPrefixFails(entry, path, n + 1, width, height);
    } else {
      assert path[..n] == path;
    }
  }

  /** One more letter of the path extends a successful walk by one move, or fails on that letter. */
  lemma WalkStep(entry: Coord, path: string, i: nat, width: int, height: int, cs: seq<Coord>)
    requires i < |path| && Walk(entry, path[..i], width, height) == Success(cs)
    ensures FromLetter(path[i]).None? ==> Walk(entry, path[..i + 1], width, height) == Failure(InvalidPathChar(path[i]))
    ensures FromLetter(path[i]).Some? ==>
              var next := Move(cs[|cs| - 1], FromLetter(path[i]).value);
              Walk(entry, path[..i + 1], width, height)
              == if InBounds(next, width, height) then Success(cs + [next]) else Failure(PathOutOfBounds)
  {
    var p := path[..i + 1];
    assert p[..|p| - 1] == path[..i] && p[|p| - 1] == path[i];
  }

  /** _cells_on_path: move x and y letter by letter, adding each position to the visited set. */
  method CellsOnPath(entry: Coord, path: string, width: int, height: int) returns (r: Result<set<Coord>, RenderError>)
    ensures r == WalkCells(entry, path, width, height)
  {
    var x, y := entry.x, entry.y;
    if !(0 <= x < width && 0 <= y < height) {
      WalkPrefixFails(entry, path, 0, width, height);
      return Failure(EntryOutOfBounds(entry));
    }
    var visited := {Coord(x, y)};
    ghost var cs := [entry];
    assert path[..0] == [];
    for i := 0 to |path|
      invariant Walk(entry, path[..i], width, height) == Success(cs)
      invariant Coord(x, y) == cs[|cs| - 1]
      invariant visited == Cells(cs)
    {
      var step := path[i];
      WalkStep(entry, path, i, width, height, cs);
      var d := FromLetter(step);
      if d.None? {
        WalkPrefixFails(entry, path, i + 1, width, height);
        return Failure(InvalidPathChar(step));
      }
      var next := Move(Coord(x, y), d.value);
      x, y := next.x, next.y;
      if !(0 <= x < width && 0 <= y < height) {
        WalkPrefixFails(entry, path, i + 1, width, height);
        return Failure(PathOutOfBounds);
      }
      visited := visited + {Coord(x, y)};
      cs := cs + [Coord(x, y)];
    }
    assert path[..|path|] == path;
    return Success(visited);
  }

  /** Replaying one more letter extends the replayed walk by one move from its last cell. */
  lemma {:induction false} ReplaySnoc(start: Coord, letters: string, c: char)
    ensures Replay(start, letters).None? || FromLetter(c).None? <==> Replay(start, letters + [c]).None?
    ensures Replay(start, letters).Some? && FromLetter(c).Some? ==>
              var ps := Replay(start, letters).value;
              Replay(start, letters + [c]) == Some(ps + [Move(ps[|ps| - 1], FromLetter(c).value)])
    decreases |letters|
  {
    var ls := letters + [c];
    if letters == [] {
      assert ls == [c] && ls[1..] == [];
    } else {
      assert ls[0] == letters[0] && ls[1..] == letters[1..] + [c];
      match FromLetter(letters[0])
      case None =>
      case Some(d) =>
        var next := Move(start, d);
        ReplaySnoc(next, letters[1..], c);
        if Replay(next, letters[1..]).Some? && FromLetter(c).Some? {
          var p := Replay(next, letters[1..]).value;
          var n := Move(p[|p| - 1], FromLetter(c).value);
          assert ([start] + p)[|[start] + p| - 1] == p[|p| - 1];
          assert [start] + (p + [n]) == ([start] + p) + [n];
        }
    }
  }

  /** The walk succeeds exactly when the replay of the letters stays inside the grid, and then it is that replay. */
  lemma {:induction false} WalkIsReplay(entry: Coord, path: string, width: int, height: int)
    ensures Walk(entry, path, width, height).Success? <==>
              Replay(entry, path).Some? && AllInBounds(Replay(entry, path).value, width, height)
    ensures Walk(entry, path, width, height).Success? ==> Walk(entry, path, width, height).value == Replay(entry, path).value
    decreases |path|
  {
    if path != [] {
      var p, c := path[..|path| - 1], path[|path| - 1];
      assert path == p + [c];
      WalkIsReplay(entry, p, width, height);
      ReplaySnoc(entry, p, c);
      if Replay(entry, p).Some? && FromLetter(c).Some? {
        var ps := Replay(entry, p).value;
        var next := Move(ps[|ps| - 1], FromLetter(c).value);
        var qs := ps + [next];
        assert forall i :: 0 <= i < |ps| ==> qs[i] == ps[i];
        assert AllInBounds(qs, width, height) <==> AllInBounds(ps, width, height) && InBounds(next, width, height) by {
          assert qs[|ps|] == next;
        }
      }
    }
  }

  /** Following the letters of a coordinate path that stays inside the grid visits exactly that path. */
  lemma WalkOfConvertedPath(coords: seq<Coord>, path: string, width: int, height: int)
    requires |coords| >= 1 && CoordsToDirections(coords) == Success(path) && AllInBounds(coords, width, height)
    ensures Walk(coords[0], path, width, height) == Success(coords)
    ensures WalkCells(coords[0], path, width, height) == Success(Cells(coords))
  {
    ReplayRoundTrip(coords, path);
    WalkIsReplay(coords[0], path, width, height);
  }

  /** A successful walk converts back to the letters it followed. */
  lemma WalkConvertsBack(entry: Coord, path: string, width: int, height: int)
    requires Walk(entry, path, width, height).Success?
    ensures CoordsToDirections(Walk(entry, path, width, height).value) == Success(path)
  {
    WalkIsReplay(entry, path, width, height);
    ReplayInverse(entry, path, Replay(entry, path).value);
  }

  // ---- render_ascii ----

  /** The path marker exactly as the source text spells it between its two spaces. */
  const PATH_MARK: string := [' ', '\U{E2}', '\U{20AC}', '\U{A2}', ' ']

  /** The visible text inside a cell: entry, exit, a "42" cell, a path cell, or blank. */
  function Interior(pos: Coord, entry: Coord, exit: Coord, forbidden: set<Coord>, pathCells: set<Coord>): (s: string)
    ensures '\n' !in s
  {
    if pos == entry then " E "
    else if pos == exit then " X "
    else if pos in forbidden then "   "
    else if pos in pathCells then PATH_MARK
    else "   "
  }

  /** A boundary line over the first n cells: "+", then for each cell "---" when it has the wall, else "   ", then "+". */
  function HorizontalLine(row: seq<nat>, n: nat, bit: nat): (line: string)
    requires n <= |row|
    ensures |line| == 4 * n + 1 && '\n' !in line && line[4 * n] == '+'
    decreases n
  {
    if n == 0 then "+"
    else HorizontalLine(row, n - 1, bit) + (if HasWall(row[n - 1], bit) then "---" else "   ") + "+"
  }

  /** The middle line of row y over its first n cells: each cell's west side, then its interior. */
  function MidCells(row: seq<nat>, y: int, n: nat, entry: Coord, exit: Coord, forbidden: set<Coord>, pathCells: set<Coord>)
    : (line: string)
    requires n <= |row|
    ensures '\n' !in line
    ensures n >= 1 ==> |line| >= 1 && line[0] == if HasWall(row[0], WEST) then '|' else ' '
    decreases n
  {
    if n == 0 then ""
    else
      var prev := MidCells(row, y, n - 1, entry, exit, forbidden, pathCells);
      prev + (if HasWall(row[n - 1], WEST) then "|" else " ") + Interior(Coord(n - 1, y), entry, exit, forbidden, pathCells)
  }

  /** The last character of a nonempty line. */
  function Last(line: string): char
    requires |line| >= 1
  {
    line[|line| - 1]
  }

  /** The middle line of row y: its cells, then the east side of its last cell. */
  function MidLine(row: seq<nat>, y: int, width: nat, entry: Coord, exit: Coord, forbidden: set<Coord>, pathCells: set<Coord>)
    : (line: string)
    requires 1 <= width <= |row|
    ensures '\n' !in line && |line| >= 2
    ensures line[0] == if HasWall(row[0], WEST) then '|' else ' '
    ensures Last(line) == if HasWall(row[width - 1], EAST) then '|' else ' '
  {
    MidCells(row, y, width, entry, exit, forbidden, pathCells) + (if HasWall(row[width - 1], EAST) then "|" else " ")
  }

  /** Every row has the given width. */
  predicate RowsOfWidth(grid: Grid, width: int)
  {
    forall y :: 0 <= y < |grid| ==> |grid[y]| == width
  }

  /** No line contains a newline. */
  predicate NoNewlines(ls: seq<string>)
  {
    forall i :: 0 <= i < |ls| ==> '\n' !in ls[i]
  }

  /** The top boundary line of every row, in row order. */
  function TopLines(grid: Grid, width: int): (ls: seq<string>)
    requires RowsOfWidth(grid, width) && (|grid| == 0 || width >= 1)
    ensures |ls| == |grid| && NoNewlines(ls)
  {
    seq(|grid|, y requires 0 <= y < |grid| && 0 <= width <= |grid[y]| => HorizontalLine(grid[y], width, NORTH))
  }

  /** The middle line of every row, in row order. */
  function MidLines(grid: Grid, width: int, entry: Coord, exit: Coord, forbidden: set<Coord>, pathCells: set<Coord>)
    : (ls: seq<string>)
    requires RowsOfWidth(grid, width) && (|grid| == 0 || width >= 1)
    ensures |ls| == |grid| && NoNewlines(ls)
  {
    seq(|grid|, y requires 0 <= y < |grid| && 1 <= width <= |grid[y]| =>
                  MidLine(grid[y], y, width, entry, exit, forbidden, pathCells))
  }

  /** Each row's top line followed by its middle line, row after row. */
  function Interleave(tops: seq<string>, mids: seq<string>): (ls: seq<string>)
    requires |tops| == |mids|
    ensures |ls| == 2 * |tops|
    ensures NoNewlines(tops) && NoNewlines(mids) ==> NoNewlines(ls)
    decreases |tops|
  {
    if tops == [] then []
    else
      var n := |tops| - 1;
      var prev := Interleave(tops[..n], mids[..n]);
      assert NoNewlines(tops) && NoNewlines(mids) ==> NoNewlines(tops[..n]) && NoNewlines(mids[..n]) by {
        if NoNewlines(tops) && NoNewlines(mids) {
          assert forall i :: 0 <= i < n ==> tops[..n][i] == tops[i] && mids[..n][i] == mids[i];
        }
      }
      prev + [tops[n], mids[n]]
  }

  /** Line 2y of the interleaving is row y's top line and line 2y + 1 its middle line. */
  lemma {:induction false} InterleaveAt(tops: seq<string>, mids: seq<string>, y: int)
    requires |tops| == |mids| && 0 <= y < |tops|
    ensures Interleave(tops, mids)[2 * y] == tops[y] && Interleave(tops, mids)[2 * y + 1] == mids[y]
    decreases |tops|
  {
    var n := |tops| - 1;
    if y < n {
      InterleaveAt(tops[..n], mids[..n], y);
    }
  }

  /** Interleaving one more row appends its two lines. */
  lemma InterleaveStep(tops: seq<string>, mids: seq<string>, y: int)
    requires |tops| == |mids| && 0 <= y < |tops|
    ensures Interleave(tops[..y + 1], mids[..y + 1]) == Interleave(tops[..y], mids[..y]) + [tops[y], mids[y]]
  {
    assert tops[..y + 1][..y] == tops[..y] && mids[..y + 1][..y] == mids[..y];
  }

  /** The shapes on which the source's own indexing fails: rows with no cells, or a bottom line with no row. */
  predicate IndexFails(width: int, height: int)
  {
    (height == 0 && width > 0) || (height > 0 && width <= 0)
  }

  /** The lines of the picture: two per row, then the bottom boundary of the last row. */
  function Picture(grid: Grid, width: int, height: int, entry: Coord, exit: Coord, forbidden: set<Coord>, pathCells: set<Coord>)
    : (ls: seq<string>)
    requires |grid| == height && RowsOfWidth(grid, width) && !IndexFails(width, height)
    ensures |ls| == 2 * height + 1 && forall i :: 0 <= i < |ls| ==> '\n' !in ls[i]
  {
    var bottom := if height == 0 then "+" else HorizontalLine(grid[height - 1], width, SOUTH);
    var body := Interleave(TopLines(grid, width), MidLines(grid, width, entry, exit, forbidden, pathCells));
    assert forall i :: 0 <= i < |body| ==> (body + [bottom])[i] == body[i];
    body + [bottom]
  }

  /** The cells to mark: none without a path, otherwise the replayed path's cells. */
  function PathCells(entry: Coord, path: string, width: int, height: int): (r: Result<set<Coord>, RenderError>)
    ensures path == [] ==> r == Success({})
    ensures path != [] ==> r == WalkCells(entry, path, width, height)
  {
    if path == [] then Success({}) else WalkCells(entry, path, width, height)
  }

  /**
   * render_ascii: the grid's shape, then its cells in row-major order, then
   * the path, then the picture. An empty path string stands for no path.
   */
  function Render(grid: seq<seq<int>>, width: int, height: int, entry: Coord, exit: Coord, path: string,
                  forbidden: set<Coord>): (r: Result<string, RenderError>)
    ensures r.Success? <==> && Shaped(grid, width, height) && AllCellsValid(grid)
                            && PathCells(entry, path, width, height).Success? && !IndexFails(width, height)
    ensures !Shaped(grid, width, height) ==> r == Failure(ShapeMismatch)
    ensures Shaped(grid, width, height) && !AllCellsValid(grid) ==>
              && r.Failure? && r.error.InvalidCell?
              && var c := FirstBadInGrid(grid).value;
                 r.error == InvalidCell(c.x, c.y, grid[c.y][c.x]) && !ValidCell(r.error.value)
    ensures Shaped(grid, width, height) && AllCellsValid(grid) && PathCells(entry, path, width, height).Failure? ==>
              r == Failure(PathCells(entry, path, width, height).error)
    ensures (Shaped(grid, width, height) && AllCellsValid(grid) && PathCells(entry, path, width, height).Success?
             && IndexFails(width, height)) ==> r == Failure(IndexError)
  {
    if !Shaped(grid, width, height) then Failure(ShapeMismatch)
    else
      match FirstBadInGrid(grid)
      case Some(c) => Failure(InvalidCell(c.x, c.y, grid[c.y][c.x]))
      case None =>
        var g: Grid := grid;
        match PathCells(entry, path, width, height)
        case Failure(e) => Failure(e)
        case Success(cells) =>
          if IndexFails(width, height) then Failure(IndexError)
          else Success(Join(Picture(g, width, height, entry, exit, forbidden, cells), '\n') + "\n")
  }

  /** One boundary line of a row, corner by corner. */
  method DrawHorizontal(row: seq<nat>, width: nat, bit: nat) returns (line: string)
    requires width <= |row|
    ensures line == HorizontalLine(row, width, bit)
  {
    line := "+";
    for x := 0 to width
      invariant line == HorizontalLine(row, x, bit)
    {
      line := line + (if HasWall(row[x], bit) then "---" else "   ") + "+";
    }
  }

  /** The middle line of row y, cell by cell, then the east side of the last cell. */
  method DrawMid(row: seq<nat>, y: int, width: nat, entry: Coord, exit: Coord, forbidden: set<Coord>,
                 pathCells: set<Coord>) returns (line: string)
    requires 1 <= width <= |row|
    ensures line == MidLine(row, y, width, entry, exit, forbidden, pathCells)
  {
    line := "";
    for x := 0 to width
      invariant line == MidCells(row, y, x, entry, exit, forbidden, pathCells)
    {
      line := line + (if HasWall(row[x], WEST) then "|" else " ") + Interior(Coord(x, y), entry, exit, forbidden, pathCells);
    }
    line := line + (if HasWall(row[width - 1], EAST) then "|" else " ");
  }

  /** The lines of the picture, or the index error the source's loops run into. */
  method DrawPicture(g: Grid, width: int, height: int, entry: Coord, exit: Coord, forbidden: set<Coord>,
                     pathCells: set<Coord>) returns (r: Result<seq<string>, RenderError>)
    requires |g| == height && RowsOfWidth(g, width)
    ensures IndexFails(width, height) <==> r == Failure(IndexError)
    ensures r.Failure? ==> r == Failure(IndexError)
    ensures r.Success? ==> r.value == Picture(g, width, height, entry, exit, forbidden, pathCells)
  {
    var lines: seq<string> := [];
    if height > 0 && width <= 0 {
      return Failure(IndexError);
    }
    ghost var tops := TopLines(g, width);
    ghost var mids := MidLines(g, width, entry, exit, forbidden, pathCells);
    assert tops[..0] == [] && mids[..0] == [];
    for y := 0 to height
      invariant lines == Interleave(tops[..y], mids[..y])
    {
      assert |g[y]| == width;
      var top := DrawHorizontal(g[y], width, NORTH);
      var mid := DrawMid(g[y], y, width, entry, exit, forbidden, pathCells);
      InterleaveStep(tops, mids, y);
      lines := lines + [top, mid];
    }
    assert tops[..height] == tops && mids[..height] == mids;
    var bottom := "+";
    if height > 0 {
      assert |g[height - 1]| == width;
      bottom := DrawHorizontal(g[height - 1], width, SOUTH);
    } else if width > 0 {
      return Failure(IndexError);
    }
    return Success(lines + [bottom]);
  }

  /** render_ascii: validate, mark the path, then build the picture line by line. */
  method RenderAscii(grid: seq<seq<int>>, width: int, height: int, entry: Coord, exit: Coord, path: string,
                     forbidden: set<Coord>) returns (r: Result<string, RenderError>)
    ensures r == Render(grid, width, height, entry, exit, path, forbidden)
  {
    if !Shaped(grid, width, height) {
      return Failure(ShapeMismatch);
    }
    var bad := FirstBadInGrid(grid);
    if bad.Some? {
      return Failure(InvalidCell(bad.value.x, bad.value.y, grid[bad.value.y][bad.value.x]));
    }
    var g: Grid := grid;
    var pathCells: set<Coord> := {};
    if path != [] {
      var cells := CellsOnPath(entry, path, width, height);
      if cells.Failure? {
        return Failure(cells.error);
      }
      pathCells := cells.value;
    }
    var lines := DrawPicture(g, width, height, entry, exit, forbidden, pathCells);
    if lines.Failure? {
      return Failure(lines.error);
    }
    return Success(Join(lines.value, '\n') + "\n");
  }

  // ---- the structure of the picture ----

  /** Cell x of a boundary line sits between two '+' corners and is drawn "---" exactly when it has the wall. */
  lemma {:induction false} HorizontalLineAt(row: seq<nat>, n: nat, bit: nat, x: int)
    requires n <= |row| && 0 <= x < n
    ensures var line := HorizontalLine(row, n, bit);
            var c := if HasWall(row[x], bit) then '-' else ' ';
            && line[4 * x] == '+' && line[4 * x + 4] == '+'
            && line[4 * x + 1] == c && line[4 * x + 2] == c && line[4 * x + 3] == c
    decreases n
  {
    var line := HorizontalLine(row, n, bit);
    var prev := HorizontalLine(row, n - 1, bit);
    var seg := if HasWall(row[n - 1], bit) then "---" else "   ";
    assert line == prev + seg + "+";
    if x < n - 1 {
      HorizontalLineAt(row, n - 1, bit, x);
      assert line[4 * x] == prev[4 * x] && line[4 * x + 1] == prev[4 * x + 1] && line[4 * x + 2] == prev[4 * x + 2];
      assert line[4 * x + 3] == prev[4 * x + 3] && line[4 * x + 4] == prev[4 * x + 4];
    } else {
      assert line[4 * x] == prev[4 * (n - 1)];
    }
  }

  /** The second character of cell x in a boundary line drawn for direction d is '-' exactly when that side is closed. */
  lemma HorizontalLineWall(row: seq<nat>, n: nat, d: Direction, x: int)
    requires n <= |row| && 0 <= x < n
    ensures HorizontalLine(row, n, DirBitValue(d))[4 * x + 1] == '-' <==> Closed(row[x], d)
  {
    HorizontalLineAt(row, n, DirBitValue(d), x);
    HasWallClosed(row[x], d);
  }

  /** The middle line of a row starts with its first cell's west wall and ends with its last cell's east wall. */
  lemma MidLineWalls(row: seq<nat>, y: int, width: nat, entry: Coord, exit: Coord, forbidden: set<Coord>,
                     pathCells: set<Coord>)
    requires 1 <= width <= |row|
    ensures var line := MidLine(row, y, width, entry, exit, forbidden, pathCells);
            && (line[0] == '|' <==> Closed(row[0], W))
            && (Last(line) == '|' <==> Closed(row[width - 1], E))
  {
    HasWallClosed(row[0], W);
    HasWallClosed(row[width - 1], E);
  }

  /** The rendered text is the picture's lines, each ended by a newline: 2 * height + 1 of them. */
  lemma RenderLines(grid: seq<seq<int>>, width: int, height: int, entry: Coord, exit: Coord, path: string,
                    forbidden: set<Coord>)
    requires Render(grid, width, height, entry, exit, path, forbidden).Success?
    ensures var text := Render(grid, width, height, entry, exit, path, forbidden).value;
            && var g: Grid := grid;
               && SplitLines(text) == Picture(g, width, height, entry, exit, forbidden, PathCells(entry, path, width, height).value)
               && |SplitLines(text)| == 2 * height + 1
               && text[|text| - 1] == '\n'
  {
    var g: Grid := grid;
    var ls := Picture(g, width, height, entry, exit, forbidden, PathCells(entry, path, width, height).value);
    JoinLines(ls);
    SplitLinesRoundTrip(ls);
    LinesEndWithNewline(ls);
  }

  /**
   * The walls can be read back from the lines of the picture: line 2y shows
   * the north walls of row y, line 2y + 1 starts with the west wall of its
   * first cell and ends with the east wall of its last cell, and the last
   * line shows the south walls of the bottom row.
   */
  lemma PictureWalls(g: Grid, width: int, height: int, entry: Coord, exit: Coord, forbidden: set<Coord>,
                     pathCells: set<Coord>, x: int, y: int)
    requires |g| == height && RowsOfWidth(g, width) && !IndexFails(width, height)
    requires 0 <= x < width && 0 <= y < height
    ensures var ls := Picture(g, width, height, entry, exit, forbidden, pathCells);
            && |ls[2 * y]| == 4 * width + 1 && |ls[2 * height]| == 4 * width + 1 && |ls[2 * y + 1]| >= 2
            && (ls[2 * y][4 * x + 1] == '-' <==> Closed(g[y][x], N))
            && (ls[2 * height][4 * x + 1] == '-' <==> Closed(g[height - 1][x], S))
            && (ls[2 * y + 1][0] == '|' <==> Closed(g[y][0], W))
            && (Last(ls[2 * y + 1]) == '|' <==> Closed(g[y][width - 1], E))
  {
    var ls := Picture(g, width, height, entry, exit, forbidden, pathCells);
    var tops := TopLines(g, width);
    var mids := MidLines(g, width, entry, exit, forbidden, pathCells);
    var body := Interleave(tops, mids);
    assert |g[height - 1]| == width && |g[y]| == width;
    var bottom := HorizontalLine(g[height - 1], width, SOUTH);
    assert ls == body + [bottom];
    assert ls[2 * y] == body[2 * y] && ls[2 * y + 1] == body[2 * y + 1] && ls[2 * height] == bottom;
    InterleaveAt(tops, mids, y);
    assert body[2 * y] == HorizontalLine(g[y], width, NORTH);
    assert body[2 * y + 1] == MidLine(g[y], y, width, entry, exit, forbidden, pathCells);
    WallConstants();
    HorizontalLineWall(g[y], width, N, x);
    HorizontalLineWall(g[height - 1], width, S, x);
    MidLineWalls(g[y], y, width, entry, exit, forbidden, pathCells);
  }

  /** The walls can be read back from the rendered text, line by line as the picture lays them out. */
  lemma RenderWalls(grid: seq<seq<int>>, width: int, height: int, entry: Coord, exit: Coord, path: string,
                    forbidden: set<Coord>, x: int, y: int)
    requires Render(grid, width, height, entry, exit, path, forbidden).Success?
    requires 0 <= x < width && 0 <= y < height
    ensures var ls := SplitLines(Render(grid, width, height, entry, exit, path, forbidden).value);
            && |ls| == 2 * height + 1
            && |ls[2 * y]| == 4 * width + 1 && |ls[2 * height]| == 4 * width + 1 && |ls[2 * y + 1]| >= 2
            && 0 <= grid[y][x] && 0 <= grid[height - 1][x] && 0 <= grid[y][0] && 0 <= grid[y][width - 1]
    ensures var ls := SplitLines(Render(grid, width, height, entry, exit, path, forbidden).value);
            ls[2 * y][4 * x + 1] == '-' <==> Closed(grid[y][x], N)
    ensures var ls := SplitLines(Render(grid, width, height, entry, exit, path, forbidden).value);
            ls[2 * height][4 * x + 1] == '-' <==> Closed(grid[height - 1][x], S)
    ensures var ls := SplitLines(Render(grid, width, height, entry, exit, path, forbidden).value);
            ls[2 * y + 1][0] == '|' <==> Closed(grid[y][0], W)
    ensures var ls := SplitLines(Render(grid, width, height, entry, exit, path, forbidden).value);
            Last(ls[2 * y + 1]) == '|' <==> Closed(grid[y][width - 1], E)
  {
    RenderLines(grid, width, height, entry, exit, path, forbidden);
    var g: Grid := grid;
    var pc := PathCells(entry, path, width, height).value;
    var ls := SplitLines(Render(grid, width, height, entry, exit, path, forbidden).value);
    var pic := Picture(g, width, height, entry, exit, forbidden, pc);
    assert ls == pic;
    PictureWalls(g, width, height, entry, exit, forbidden, pc, x, y);
  }
}
