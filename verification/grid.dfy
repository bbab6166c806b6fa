/**
  Board geometry of the Snake game: positions are pixel offsets from the
  top-left corner of the board, always a multiple of the dot size, and the
  snake moves one dot per tick.
 */
module Grid {

  /** Side of one dot (one board cell) in pixels. */
  const DotSize: int := 20

  /** A board position, as the `top` and `left` pixel offsets of a dot. */
  datatype Cell = Cell(top: int, left: int)

  datatype Direction = Up | Down | Left | Right

  /** The board's pixel dimensions (its offsetWidth and offsetHeight). */
  datatype Board = Board(width: int, height: int)

  /** The direction that would turn the snake straight round. */
  function Opposite(d: Direction): (o: Direction)
    ensures o != d
    ensures (d == Up || d == Down) <==> (o == Up || o == Down)
  {
    match d
    case Up => Down
    case Down => Up
    case Left => Right
    case Right => Left
  }

  lemma OppositeIsInvolution(d: Direction)
    ensures Opposite(Opposite(d)) == d
  {
  }

  /** The dot one step away from `c` in direction `d`: Up/Down change `top`,
      Left/Right change `left`, each by one dot. */
  function Move(c: Cell, d: Direction): (n: Cell)
    ensures n != c
    ensures (n.top == c.top) != (n.left == c.left)
  {
    match d
    case Up => c.(top := c.top - DotSize)
    case Down => c.(top := c.top + DotSize)
    case Left => c.(left := c.left - DotSize)
    case Right => c.(left := c.left + DotSize)
  }

  /** True when the position is on a dot of the grid. */
  predicate Aligned(c: Cell)
  {
    c.top % DotSize == 0 && c.left % DotSize == 0
  }

  /** True when the position is inside the board, i.e. it does not trip the
      wall test of the tick. */
  predicate InBounds(b: Board, c: Cell)
    ensures InBounds(b, c) <==> 0 <= c.left < b.width && 0 <= c.top < b.height
  {
    !(c.left < 0 || c.top < 0 || c.left >= b.width || c.top >= b.height)
  }

  function Abs(x: int): nat
  {
    if x < 0 then -x else x
  }

  /** A move travels exactly one dot along exactly one axis, the axis and sign
      being those of the direction, and it keeps positions on the grid. */
  lemma MoveIsOneDot(c: Cell, d: Direction)
    ensures Abs(Move(c, d).top - c.top) + Abs(Move(c, d).left - c.left) == DotSize
    ensures (d == Up || d == Down) <==> Move(c, d).left == c.left
    ensures (d == Left || d == Right) <==> Move(c, d).top == c.top
    ensures d == Up <==> Move(c, d).top < c.top
    ensures d == Left <==> Move(c, d).left < c.left
    ensures Aligned(c) ==> Aligned(Move(c, d))
  {
  }

  /** Moving back in the opposite direction returns to the start: a direct
      reversal always lands on the dot the head just left. */
  lemma MoveOppositeReturns(c: Cell, d: Direction)
    ensures Move(Move(c, d), Opposite(d)) == c
    ensures Move(c, d) != c
  {
  }
}
