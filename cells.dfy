/** Grid geometry: cells, the grid's bounds, directions and how an arrow key
    changes the direction of travel. */
module Cells {

  /** A grid cell; x grows to the right, y grows downwards. */
  datatype Cell = Cell(x: int, y: int)

  /** The playing field's size in cells, fixed for the whole program. */
  datatype Grid = Grid(width: int, height: int) {

    predicate Valid() {
      width >= 1 && height >= 1
    }

    predicate InBounds(c: Cell) {
      0 <= c.x < width && 0 <= c.y < height
    }

    /** Where a new snake starts and where a power-up spawns. */
    function Centre(): Cell {
      Cell(width / 2, height / 2)
    }
  }

  datatype Direction = Up | Down | Left | Right

  /** The displacement of one step in direction `d`. */
  function Delta(d: Direction): Cell {
    match d
    case Up => Cell(0, -1)
    case Down => Cell(0, 1)
    case Left => Cell(-1, 0)
    case Right => Cell(1, 0)
  }

  function Step(c: Cell, d: Direction): Cell {
    Cell(c.x + Delta(d).x, c.y + Delta(d).y)
  }

  /** The direction whose step undoes a step in `d`. */
  function Opposite(d: Direction): (r: Direction)
    ensures forall c :: Step(Step(c, d), r) == c
  {
    match d
    case Up => Down
    case Down => Up
    case Left => Right
    case Right => Left
  }

  function Abs(n: int): nat {
    if n < 0 then -n else n
  }

  /** Two cells that share an edge. */
  predicate Adjacent(a: Cell, b: Cell) {
    Abs(a.x - b.x) + Abs(a.y - b.y) == 1
  }

  /** The colour of a cell on a chessboard colouring of the grid. */
  function Parity(c: Cell): int {
    (c.x + c.y) % 2
  }

  lemma StepIsAdjacent(c: Cell, d: Direction)
    ensures Adjacent(Step(c, d), c)
  {
  }

  /** Every step changes the chessboard colour of the cell. */
  lemma AdjacentFlipsParity(a: Cell, b: Cell)
    requires Adjacent(a, b)
    ensures Parity(a) != Parity(b)
  {
    assert (a.x + a.y) - (b.x + b.y) == 1 || (a.x + a.y) - (b.x + b.y) == -1;
  }

  /** A key press: one of the four arrow keys, or any other key. */
  datatype Key = Arrow(dir: Direction) | OtherKey

  /** The direction after a key press: an arrow key turns the snake unless it
      asks for the direct reverse of the current direction, which is ignored. */
  function Steer(current: Direction, key: Key): (r: Direction)
    ensures r == (if key.Arrow? && key.dir != Opposite(current) then key.dir else current)
    ensures r != Opposite(current)
  {
    if key == Arrow(Up) && current != Down then Up
    else if key == Arrow(Down) && current != Up then Down
    else if key == Arrow(Left) && current != Right then Left
    else if key == Arrow(Right) && current != Left then Right
    else current
  }
}
