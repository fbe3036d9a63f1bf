/** The food: one cell, placed by rejection sampling on a cell that is
    neither under the snake nor an obstacle. */
module Foods {
  import opened Cells
  import Obstacles
  import Snakes

  datatype Option<T> = None | Some(value: T)

  /** A cell where food may be placed. */
  predicate Free(c: Cell, body: seq<Cell>, obstacles: seq<Cell>) {
    c !in body && c !in obstacles
  }

  /** The first free cell among the random draws `draws`, if any: the cell the
      sampling loop settles on when the random generator produces `draws`. */
  function FirstFree(draws: seq<Cell>, body: seq<Cell>, obstacles: seq<Cell>): (r: Option<Cell>)
    ensures r.Some? ==> r.value in draws && Free(r.value, body, obstacles)
    ensures r.Some? ==> (exists i :: 0 <= i < |draws| && draws[i] == r.value
                                     && forall j :: 0 <= j < i ==> !Free(draws[j], body, obstacles))
    ensures r.None? <==> forall c :: c in draws ==> !Free(c, body, obstacles)
  {
    if draws == [] then None
    else if Free(draws[0], body, obstacles) then Some(draws[0])
    else
      var rest := FirstFree(draws[1..], body, obstacles);
      assert forall c :: c in draws ==> c == draws[0] || c in draws[1..];
      if rest.Some? then
        var i :| 0 <= i < |draws[1..]| && draws[1..][i] == rest.value
          && forall j :: 0 <= j < i ==> !Free(draws[1..][j], body, obstacles);
        assert draws[i + 1] == rest.value;
        assert forall j :: 0 <= j < i + 1 ==> !Free(draws[j], body, obstacles) by {
          forall j | 0 <= j < i + 1
            ensures !Free(draws[j], body, obstacles)
          {
            if j > 0 {
              assert draws[j] == draws[1..][j - 1];
            }
          }
        }
        rest
      else
        rest
  }

  class Food {
    const grid: Grid
    const snake: Snakes.Snake
    const obstacle: Obstacles.Obstacle
    var position: Cell

    /** A new food starts at (0, 0) and is then placed at the first free
        draw. The sampling loop only ends on a free cell, so one of the draws
        must be free. */
    constructor (grid: Grid, snake: Snakes.Snake, obstacle: Obstacles.Obstacle, draws: seq<Cell>)
      requires forall c :: c in draws ==> grid.InBounds(c)
      requires FirstFree(draws, snake.positions, obstacle.positions).Some?
      ensures this.grid == grid && this.snake == snake && this.obstacle == obstacle
      ensures position == FirstFree(draws, snake.positions, obstacle.positions).value
      ensures grid.InBounds(position) && position !in snake.positions && position !in obstacle.positions
    {
      this.grid := grid;
      this.snake := snake;
      this.obstacle := obstacle;
      position := Cell(0, 0);
      new;
      var _ := RandomizePosition(draws);
    }

    /** Draws cells until one is neither on the snake nor an obstacle and
        moves the food there. The draws are given as a finite list: `found`
        is false, and the food stays where it was, when every draw is taken. */
    method RandomizePosition(draws: seq<Cell>) returns (found: bool)
      requires forall c :: c in draws ==> grid.InBounds(c)
      modifies this`position
      ensures var pick := FirstFree(draws, snake.positions, obstacle.positions);
        && found == pick.Some?
        && position == if found then pick.value else old(position)
      ensures found ==> (grid.InBounds(position)
                         && position !in snake.positions && position !in obstacle.positions)
    {
      var i := 0;
      while i < |draws|
        invariant 0 <= i <= |draws|
        invariant FirstFree(draws[i..], snake.positions, obstacle.positions)
          == FirstFree(draws, snake.positions, obstacle.positions)
        invariant position == old(position)
      {
        var candidate := draws[i];
        assert draws[i..][0] == candidate && draws[i..][1..] == draws[i + 1..];
        if candidate !in snake.positions && candidate !in obstacle.positions {
          position := candidate;
          return true;
        }
        i := i + 1;
      }
      return false;
    }
  }
}
