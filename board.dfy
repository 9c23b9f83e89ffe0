/**
  The playing field of the Snake game: grid cells, the four movement
  directions, the arrow keys and the 32-bit food counter arithmetic.
 */
module Board {

  /** Width and height of the field, in cells. */
  const Width: int := 40
  const Height: int := 30
  /** Number of cells on the field; a body this long fills the board. */
  const BoardCells: int := Width * Height

  /** Configured start length of the snake (the value the game ships with). */
  const StartLenSnake: int := 4

  /** Range of a Java `int`. */
  const Int32Min: int := -0x8000_0000
  const Int32Max: int := 0x7fff_ffff

  /** A grid cell. Equality is structural, as for the game's `Point`. */
  datatype Cell = Cell(x: int, y: int)
  {
    /** Coordinate-wise comparison, which is exactly structural equality. */
    function Equals(other: Cell): (r: bool)
      ensures r <==> this == other
    {
      x == other.x && y == other.y
    }
  }

  /** The centre cell, where every cell of a new snake is placed. */
  function Center(): Cell
  {
    Cell(Width / 2, Height / 2)
  }

  predicate InBounds(c: Cell)
  {
    0 <= c.x < Width && 0 <= c.y < Height
  }

  /** On the field or on the ring of cells just outside it. */
  predicate NearBoard(c: Cell)
  {
    -1 <= c.x <= Width && -1 <= c.y <= Height
  }

  function Abs(n: int): nat
  {
    if n < 0 then -n else n
  }

  /** Manhattan distance between two cells. */
  function Distance(a: Cell, b: Cell): nat
  {
    Abs(a.x - b.x) + Abs(a.y - b.y)
  }

  /** Movement direction: 0 up, 1 right, 2 down, 3 left. */
  type Direction = d: int | 0 <= d < 4

  /** The direction that undoes a move in direction `d`. */
  function Reverse(d: Direction): (r: Direction)
    ensures r != d
    ensures r % 2 == d % 2
  {
    (d + 2) % 4
  }

  /**
    One step from `c` in direction `d`. Up lowers y, right raises x,
    down raises y, left lowers x.
   */
  function Step(c: Cell, d: Direction): (r: Cell)
    ensures Distance(c, r) == 1
    ensures r.x == c.x <==> d % 2 == 0
    ensures r.x + r.y < c.x + c.y <==> d == 0 || d == 3
  {
    if d == 0 then Cell(c.x, c.y - 1)
    else if d == 1 then Cell(c.x + 1, c.y)
    else if d == 2 then Cell(c.x, c.y + 1)
    else Cell(c.x - 1, c.y)
  }

  /** A step followed by a step in the reverse direction returns to the start. */
  lemma StepThenReverse(c: Cell, d: Direction)
    ensures Step(Step(c, d), Reverse(d)) == c
  {
  }

  /** A key event: the four arrow keys, and every other key. */
  datatype Key = Up | Right | Down | Left | Other

  /** The direction code an arrow key selects. */
  function Code(k: Key): Direction
    requires !k.Other?
  {
    match k
    case Up => 0
    case Right => 1
    case Down => 2
    case Left => 3
  }

  /**
    The direction after key `k` is pressed while the snake heads in `d`:
    an arrow key selects its direction unless that is the reverse of `d`.
   */
  function NextDirection(d: Direction, k: Key): (r: Direction)
    ensures r != Reverse(d)
    ensures r == d || (!k.Other? && r == Code(k))
    ensures !k.Other? && Code(k) != Reverse(d) ==> r == Code(k)
  {
    if k.Other? || Code(k) == Reverse(d) then d else Code(k)
  }

  predicate InInt32(n: int)
  {
    Int32Min <= n <= Int32Max
  }

  /** Two's-complement truncation of an integer to a Java `int`. */
  function Wrap32(n: int): (r: int)
    ensures InInt32(r)
    ensures InInt32(n) ==> r == n
  {
    (n - Int32Min) % 0x1_0000_0000 + Int32Min
  }

  /** Java's `n++` on an `int`: one more, wrapping from the maximum to the minimum. */
  function Inc32(n: int): (r: int)
    requires InInt32(n)
    ensures r == Wrap32(n + 1)
    ensures n < Int32Max ==> r == n + 1
  {
    if n == Int32Max then Int32Min else n + 1
  }
}
