/**
 * The direction table: the four compass directions in their canonical order,
 * the wall bit of each, its opposite and its one-step move (x grows to the
 * right, y grows downward), and the guarded lookups by letter.
 */
module Directions {
  import opened Wrappers
  import opened Bits

  datatype Direction = N | E | S | W

  datatype DirectionError = InvalidDirection(direction: string)

  /** DIRECTIONS: the order in which every search explores neighbours. */
  const DIRECTIONS: seq<Direction> := [N, E, S, W]

  /** The letter that names a direction. */
  function Name(d: Direction): string
  {
    match d
    case N => "N"
    case E => "E"
    case S => "S"
    case W => "W"
  }

  /** Position of the direction's wall bit in a mask. */
  function BitIndex(d: Direction): nat
  {
    match d
    case N => 0
    case E => 1
    case S => 2
    case W => 3
  }

  /** DIR_BIT_VALUE */
  function DirBitValue(d: Direction): nat
  {
    match d
    case N => 1
    case E => 2
    case S => 4
    case W => 8
  }

  /** DIR_OPPOSITE */
  function DirOpposite(d: Direction): Direction
  {
    match d
    case N => S
    case E => W
    case S => N
    case W => E
  }

  /** DIR_MOVE_DELTA */
  function DirMoveDelta(d: Direction): (int, int)
  {
    match d
    case N => (0, -1)
    case E => (1, 0)
    case S => (0, 1)
    case W => (-1, 0)
  }

  function Abs(n: int): nat
  {
    if n < 0 then -n else n
  }

  /** walls_to_bits: the bit of a direction given by its letter, or an error for any other string. */
  function WallsToBits(direction: string): (r: Result<nat, DirectionError>)
    ensures forall d :: direction == Name(d) ==> r == Success(DirBitValue(d))
    ensures direction !in {"N", "E", "S", "W"} ==> r == Failure(InvalidDirection(direction))
  {
    if direction == "N" then Success(1)
    else if direction == "E" then Success(2)
    else if direction == "S" then Success(4)
    else if direction == "W" then Success(8)
    else Failure(InvalidDirection(direction))
  }

  /** opposite_wall: the letter of the opposite direction, or an error for any other string. */
  function OppositeWall(direction: string): (r: Result<string, DirectionError>)
    ensures forall d :: direction == Name(d) ==> r == Success(Name(DirOpposite(d)))
    ensures direction !in {"N", "E", "S", "W"} ==> r == Failure(InvalidDirection(direction))
  {
    if direction == "N" then Success("S")
    else if direction == "E" then Success("W")
    else if direction == "S" then Success("N")
    else if direction == "W" then Success("E")
    else Failure(InvalidDirection(direction))
  }

  /** move_delta: the (dx, dy) step of a direction given by its letter, or an error for any other string. */
  function MoveDelta(direction: string): (r: Result<(int, int), DirectionError>)
    ensures forall d :: direction == Name(d) ==> r == Success(DirMoveDelta(d))
    ensures direction !in {"N", "E", "S", "W"} ==> r == Failure(InvalidDirection(direction))
  {
    if direction == "N" then Success((0, -1))
    else if direction == "E" then Success((1, 0))
    else if direction == "S" then Success((0, 1))
    else if direction == "W" then Success((-1, 0))
    else Failure(InvalidDirection(direction))
  }

  /** The direction's letter as a single character, as path strings spell it. */
  function Letter(d: Direction): (c: char)
    ensures [c] == Name(d)
  {
    match d
    case N => 'N'
    case E => 'E'
    case S => 'S'
    case W => 'W'
  }

  /** The direction a path letter names, if it names one. */
  function FromLetter(c: char): (r: Option<Direction>)
    ensures r.Some? <==> c in "NESW"
    ensures r.Some? ==> Letter(r.value) == c
  {
    if c == 'N' then Some(N)
    else if c == 'E' then Some(E)
    else if c == 'S' then Some(S)
    else if c == 'W' then Some(W)
    else None
  }

  /** Reading a direction's letter gives the direction back. */
  lemma LetterRoundTrip(d: Direction)
    ensures FromLetter(Letter(d)) == Some(d)
  {
  }

  /** The canonical order lists every direction exactly once, N first and W last. */
  lemma CanonicalOrder()
    ensures |DIRECTIONS| == 4
    ensures forall d :: d in DIRECTIONS
    ensures forall i, j :: 0 <= i < j < |DIRECTIONS| ==> DIRECTIONS[i] != DIRECTIONS[j]
    ensures DIRECTIONS[0] == N && DIRECTIONS[1] == E && DIRECTIONS[2] == S && DIRECTIONS[3] == W
  {
    forall d ensures d in DIRECTIONS {
      assert DIRECTIONS[BitIndex(d)] == d;
    }
  }

  /** Each bit value is the single bit at the direction's index; together they make 15. */
  lemma BitValuesAreSingleBits()
    ensures forall d :: DirBitValue(d) == Pow2(BitIndex(d))
    ensures forall d, d' :: d != d' ==> BitIndex(d) != BitIndex(d')
    ensures Or(Or(Or(DirBitValue(N), DirBitValue(E)), DirBitValue(S)), DirBitValue(W)) == 15
  {
    assert Pow2(0) == 1 && Pow2(1) == 2 && Pow2(2) == 4 && Pow2(3) == 8;
  }

  /** The distinct directions set distinct bits. */
  lemma {:induction false} BitValuesDisjoint(d: Direction, d': Direction)
    requires d != d'
    ensures And(DirBitValue(d), DirBitValue(d')) == 0
  {
    BitValuesAreSingleBits();
    forall k: nat ensures TestBit(And(DirBitValue(d), DirBitValue(d')), k) == TestBit(0, k) {
      AndBit(DirBitValue(d), DirBitValue(d'), k);
      Pow2Bit(BitIndex(d), k);
      Pow2Bit(BitIndex(d'), k);
      NoBitOfZero(k);
    }
    BitsDetermineValue(And(DirBitValue(d), DirBitValue(d')), 0);
  }

  /** Opposite is an involution without fixed points. */
  lemma OppositeInvolution(d: Direction)
    ensures DirOpposite(DirOpposite(d)) == d
    ensures DirOpposite(d) != d
  {
  }

  /** Every move is one unit step, and the opposite direction moves back. */
  lemma MoveDeltaUnit(d: Direction)
    ensures Abs(DirMoveDelta(d).0) + Abs(DirMoveDelta(d).1) == 1
    ensures DirMoveDelta(DirOpposite(d)) == (-DirMoveDelta(d).0, -DirMoveDelta(d).1)
  {
  }

  /** Distinct directions move to distinct places. */
  lemma MoveDeltaInjective(d: Direction, d': Direction)
    requires DirMoveDelta(d) == DirMoveDelta(d')
    ensures d == d'
  {
  }
}
