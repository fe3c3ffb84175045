/**
 * output_writer: the validation of the grid and of the path letters, and
 * the text of the output file: one line of upper-case hex digits per row,
 * a blank line, the entry, the exit and the path, each line terminated by
 * a newline. The text is returned instead of written to a file.
 */
module OutputWriter {
  import opened Wrappers
  import opened Text
  import opened MazeDefinitions
  import opened GridChecks
  import ConfigParser

  /** Why the writer refuses its input. */
  datatype OutputError =
    | GridHeightMismatch
    | GridWidthMismatch(row: nat)
    | InvalidCell(x: nat, y: nat, value: int)
    | InvalidPathChar(ch: char)

  /** A row the writer accepts: the expected width, every cell in range. */
  predicate RowOk(row: seq<int>, width: int)
  {
    |row| == width && forall x :: 0 <= x < |row| ==> ValidCell(row[x])
  }

  /** A grid the writer accepts. */
  predicate GridOk(grid: seq<seq<int>>, width: int, height: int)
  {
    |grid| == height && forall y :: 0 <= y < |grid| ==> RowOk(grid[y], width)
  }

  /** The checks on row y: its width first, then its cells from the left. */
  function CheckRow(row: seq<int>, width: int, y: nat): (r: Outcome<OutputError>)
    ensures r == Pass <==> RowOk(row, width)
    ensures r.Fail? && |row| != width ==> r.error == GridWidthMismatch(y)
    ensures r.Fail? && |row| == width ==> && FirstBadCell(row).Some?
                                          && r.error == InvalidCell(FirstBadCell(row).value, y, row[FirstBadCell(row).value])
  {
    if |row| != width then Fail(GridWidthMismatch(y))
    else
      match FirstBadCell(row)
      case Some(x) => Fail(InvalidCell(x, y, row[x]))
      case None => Pass
  }

  /** The rows from y on, in order; the first failing row gives the error. */
  function CheckRows(grid: seq<seq<int>>, width: int, y: nat): (r: Outcome<OutputError>)
    requires y <= |grid|
    ensures r == Pass <==> forall j :: y <= j < |grid| ==> RowOk(grid[j], width)
    ensures r.Fail? ==> exists j :: && y <= j < |grid|
                                    && (forall i :: y <= i < j ==> RowOk(grid[i], width))
                                    && r == CheckRow(grid[j], width, j)
    decreases |grid| - y
  {
    if y == |grid| then Pass
    else
      match CheckRow(grid[y], width, y)
      case Fail(e) => Fail(e)
      case Pass => CheckRows(grid, width, y + 1)
  }

  /** _validate_maze_grid: the row count, then each row's width and cells in turn. */
  function ValidateMazeGrid(grid: seq<seq<int>>, width: int, height: int): (r: Outcome<OutputError>)
    ensures r == Pass <==> GridOk(grid, width, height)
    ensures |grid| != height <==> r == Fail(GridHeightMismatch)
    ensures r.Fail? && |grid| == height ==>
              exists y :: && 0 <= y < |grid|
                          && (forall i :: 0 <= i < y ==> RowOk(grid[i], width))
                          && r == CheckRow(grid[y], width, y)
  {
    if |grid| != height then Fail(GridHeightMismatch) else CheckRows(grid, width, 0)
  }

  /** For a grid of masks, passing the writer's checks is the maze model's well-formedness. */
  lemma ValidateMazeGridWellFormed(grid: Grid, width: int, height: int)
    ensures ValidateMazeGrid(grid, width, height) == Pass <==> WellFormed(grid, width, height)
  {
    if WellFormed(grid, width, height) {
      forall y | 0 <= y < |grid| ensures RowOk(grid[y], width) {
        assert forall x :: 0 <= x < |grid[y]| ==> grid[y][x] <= CLOSED;
      }
    }
  }

  /** A letter the path line may hold. */
  predicate PathLetter(ch: char)
  {
    ch == 'N' || ch == 'E' || ch == 'S' || ch == 'W'
  }

  /** The path check: every character is N, E, S or W; the first other one is reported. */
  function ValidatePath(path: string): (r: Outcome<OutputError>)
    ensures r == Pass <==> forall i :: 0 <= i < |path| ==> PathLetter(path[i])
    ensures r.Fail? ==> exists i :: && 0 <= i < |path| && !PathLetter(path[i])
                                    && (forall j :: 0 <= j < i ==> PathLetter(path[j]))
                                    && r.error == InvalidPathChar(path[i])
    decreases |path|
  {
    if path == [] then Pass
    else if !PathLetter(path[0]) then Fail(InvalidPathChar(path[0]))
    else
      var rest := path[1..];
      assert forall i :: 0 <= i < |rest| ==> rest[i] == path[i + 1];
      ValidatePath(rest)
  }

  /** _format_coord: the two integers with a comma between them, on one line. */
  function FormatCoord(c: Coord): (s: string)
    ensures '\n' !in s
  {
    IntToString(c.x) + "," + IntToString(c.y)
  }

  /** The configuration reader parses a formatted coordinate back to the same coordinate. */
  lemma FormatCoordRoundTrip(c: Coord)
    ensures ConfigParser.ParseCoord(FormatCoord(c)) == Success(c)
  {
    ConfigParser.ParseCoordFormatted(c.x, c.y);
  }

  /** One row as upper-case hex digits, one per cell. */
  function HexRow(row: seq<int>): (line: string)
    requires forall x :: 0 <= x < |row| ==> ValidCell(row[x])
    ensures |line| == |row| && '\n' !in line
    decreases |row|
  {
    if row == [] then ""
    else
      assert ValidCell(row[0]);
      HexRoundTrip(row[0]);
      [HexDigit(row[0])] + HexRow(row[1..])
  }

  /** The hex lines of every row. */
  function HexRows(grid: seq<seq<int>>, width: int): (ls: seq<string>)
    requires forall y :: 0 <= y < |grid| ==> RowOk(grid[y], width)
    ensures |ls| == |grid| && forall y :: 0 <= y < |ls| ==> '\n' !in ls[y]
    decreases |grid|
  {
    if grid == [] then [] else assert RowOk(grid[0], width); [HexRow(grid[0])] + HexRows(grid[1..], width)
  }

  /** The cell values of a line of hex digits; None at the first other character. */
  function DecodeHexRow(line: string): (r: Option<seq<int>>)
    decreases |line|
  {
    if line == [] then Some([])
    else
      match (HexValue(line[0]), DecodeHexRow(line[1..]))
      case (Some(v), Some(rest)) => Some([v as int] + rest)
      case _ => None
  }

  /** Decoding the hex digits of a row gives back the row. */
  lemma {:induction false} HexRowRoundTrip(row: seq<int>)
    requires forall x :: 0 <= x < |row| ==> ValidCell(row[x])
    ensures DecodeHexRow(HexRow(row)) == Some(row)
    decreases |row|
  {
    if row != [] {
      var rest := row[1..];
      HexRowRoundTrip(rest);
      assert ValidCell(row[0]);
      HexRoundTrip(row[0]);
      assert HexRow(row)[1..] == HexRow(rest);
      assert row == [row[0]] + rest;
    }
  }

  /** The lines of the output file, without their newlines. */
  function OutputLines(grid: seq<seq<int>>, width: int, height: int, entry: Coord, exit: Coord, path: string)
    : (ls: seq<string>)
    requires GridOk(grid, width, height)
    ensures |ls| == height + 4
  {
    HexRows(grid, width) + ["", FormatCoord(entry), FormatCoord(exit), path]
  }

  /** write_output: validation first, so either an error or the whole text. */
  function WriteOutput(grid: seq<seq<int>>, width: int, height: int, entry: Coord, exit: Coord, path: string)
    : (r: Result<string, OutputError>)
    ensures r.Success? <==> GridOk(grid, width, height) && forall i :: 0 <= i < |path| ==> PathLetter(path[i])
    ensures !GridOk(grid, width, height) ==> r.Failure? && Fail(r.error) == ValidateMazeGrid(grid, width, height)
    ensures GridOk(grid, width, height) && r.Failure? ==> r.error.InvalidPathChar? && !PathLetter(r.error.ch)
    ensures GridOk(grid, width, height) ==> (r.Failure? <==> ValidatePath(path).Fail?)
                                            && (r.Failure? ==> Fail(r.error) == ValidatePath(path))
  {
    match ValidateMazeGrid(grid, width, height)
    case Fail(e) => Failure(e)
    case Pass =>
      match ValidatePath(path)
      case Fail(e) => Failure(e)
      case Pass => Success(Lines(OutputLines(grid, width, height, entry, exit, path)))
  }

  /** The decoded rows of a sequence of hex lines. */
  function DecodeRows(ls: seq<string>): (r: Option<seq<seq<int>>>)
    ensures r.Some? ==> |r.value| == |ls|
    decreases |ls|
  {
    if ls == [] then Some([])
    else
      match (DecodeHexRow(ls[0]), DecodeRows(ls[1..]))
      case (Some(row), Some(rest)) => Some([row] + rest)
      case _ => None
  }

  /** What a reader of the file recovers: the rows, the two endpoints and the path. */
  function ReadOutput(text: string, height: nat): (r: Option<(seq<seq<int>>, Coord, Coord, string)>)
  {
    var ls := SplitLines(text);
    if |ls| != height + 4 || ls[height] != "" then None
    else
      match (DecodeRows(ls[..height]), ConfigParser.ParseCoord(ls[height + 1]), ConfigParser.ParseCoord(ls[height + 2]))
      case (Some(rows), Success(entry), Success(exit)) => Some((rows, entry, exit, ls[height + 3]))
      case _ => None
  }

  /** No character of a valid path is a newline. */
  lemma PathNewlineFree(path: string)
    requires forall i :: 0 <= i < |path| ==> PathLetter(path[i])
    ensures '\n' !in path
  {
    forall i | 0 <= i < |path| ensures path[i] != '\n' {
      assert PathLetter(path[i]);
    }
  }

  /** Every line of the text, the path included, is newline-free before its terminator. */
  lemma OutputLinesNewlineFree(grid: seq<seq<int>>, width: int, height: int, entry: Coord, exit: Coord, path: string)
    requires GridOk(grid, width, height) && forall i :: 0 <= i < |path| ==> PathLetter(path[i])
    ensures var ls := OutputLines(grid, width, height, entry, exit, path);
            forall i :: 0 <= i < |ls| ==> '\n' !in ls[i]
  {
    var rows := HexRows(grid, width);
    var tail := ["", FormatCoord(entry), FormatCoord(exit), path];
    PathNewlineFree(path);
    assert forall i :: 0 <= i < |tail| ==> '\n' !in tail[i];
    var ls := rows + tail;
    assert forall i :: 0 <= i < |ls| ==> '\n' !in ls[i] by {
      forall i | 0 <= i < |ls| ensures '\n' !in ls[i] {
        if i < |rows| { assert ls[i] == rows[i]; } else { assert ls[i] == tail[i - |rows|]; }
      }
    }
  }

  /** The rows decoded from the hex lines are the grid. */
  lemma {:induction false} DecodeRowsRoundTrip(grid: seq<seq<int>>, width: int)
    requires forall y :: 0 <= y < |grid| ==> RowOk(grid[y], width)
    ensures DecodeRows(HexRows(grid, width)) == Some(grid)
    decreases |grid|
  {
    if grid != [] {
      var rest := grid[1..];
      DecodeRowsRoundTrip(rest, width);
      HexRowRoundTrip(grid[0]);
      assert HexRows(grid, width)[1..] == HexRows(rest, width);
      assert grid == [grid[0]] + rest;
    }
  }

  /** The hex line of row y is that row's digits. */
  lemma {:induction false} HexRowsAt(grid: seq<seq<int>>, width: int, y: int)
    requires forall j :: 0 <= j < |grid| ==> RowOk(grid[j], width)
    requires 0 <= y < |grid|
    ensures RowOk(grid[y], width) && HexRows(grid, width)[y] == HexRow(grid[y])
    decreases y
  {
    if y > 0 {
      HexRowsAt(grid[1..], width, y - 1);
    }
  }

  /** The written text is the output lines, each terminated by a newline, so it ends with one. */
  lemma WriteOutputLines(grid: seq<seq<int>>, width: int, height: int, entry: Coord, exit: Coord, path: string)
    requires WriteOutput(grid, width, height, entry, exit, path).Success?
    ensures var text := WriteOutput(grid, width, height, entry, exit, path).value;
            && GridOk(grid, width, height)
            && SplitLines(text) == OutputLines(grid, width, height, entry, exit, path)
            && text[|text| - 1] == '\n'
  {
    var ls := OutputLines(grid, width, height, entry, exit, path);
    OutputLinesNewlineFree(grid, width, height, entry, exit, path);
    SplitLinesRoundTrip(ls);
    LinesEndWithNewline(ls);
  }

  /**
   * The layout of the text: height lines of width hex digits that decode to
   * the rows, then a blank line, the entry, the exit and the path.
   */
  lemma WriteOutputLayout(grid: seq<seq<int>>, width: int, height: int, entry: Coord, exit: Coord, path: string)
    requires WriteOutput(grid, width, height, entry, exit, path).Success?
    ensures var ls := SplitLines(WriteOutput(grid, width, height, entry, exit, path).value);
            && height >= 0 && |ls| == height + 4
            && (forall y :: 0 <= y < height ==> |ls[y]| == width && DecodeHexRow(ls[y]) == Some(grid[y]))
            && ls[height] == "" && ls[height + 1] == FormatCoord(entry) && ls[height + 2] == FormatCoord(exit)
            && ls[height + 3] == path
  {
    WriteOutputLines(grid, width, height, entry, exit, path);
    var ls := OutputLines(grid, width, height, entry, exit, path);
    forall y | 0 <= y < height ensures |ls[y]| == width && DecodeHexRow(ls[y]) == Some(grid[y]) {
      HexRowsAt(grid, width, y);
      HexRowRoundTrip(grid[y]);
    }
  }

  /** A reader of the written text recovers the grid, the two endpoints and the path. */
  lemma WriteOutputRoundTrip(grid: seq<seq<int>>, width: int, height: nat, entry: Coord, exit: Coord, path: string)
    requires WriteOutput(grid, width, height, entry, exit, path).Success?
    ensures ReadOutput(WriteOutput(grid, width, height, entry, exit, path).value, height) == Some((grid, entry, exit, path))
  {
    var text := WriteOutput(grid, width, height, entry, exit, path).value;
    WriteOutputLines(grid, width, height, entry, exit, path);
    var ls := OutputLines(grid, width, height, entry, exit, path);
    var rows := HexRows(grid, width);
    assert ls == rows + ["", FormatCoord(entry), FormatCoord(exit), path];
    assert ls[..height] == rows;
    assert ls[height] == "" && ls[height + 1] == FormatCoord(entry) && ls[height + 2] == FormatCoord(exit);
    assert ls[height + 3] == path;
    DecodeRowsRoundTrip(grid, width);
    FormatCoordRoundTrip(entry);
    FormatCoordRoundTrip(exit);
    assert SplitLines(text) == ls;
  }
}
