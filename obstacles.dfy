/** The obstacle field: a list of impassable cells, seeded with the grid's
    border and grown by one cell per level. */
module Obstacles {
  import opened Cells

  /** The cells (0, y), (1, y), ..., (n - 1, y), in that order. */
  function Row(n: nat, y: int): seq<Cell> {
    seq(n, i => Cell(i, y))
  }

  /** The cells (x, 0), (x, 1), ..., (x, n - 1), in that order. */
  function Column(n: nat, x: int): seq<Cell> {
    seq(n, i => Cell(x, i))
  }

  /** The border in the order it is appended: top row, bottom row, left
      column, right column (corner cells appear twice). */
  function Border(g: Grid): seq<Cell>
    requires g.Valid()
  {
    Row(g.width, 0) + Row(g.width, g.height - 1) + Column(g.height, 0) + Column(g.height, g.width - 1)
  }

  predicate OnEdge(g: Grid, c: Cell) {
    c.x == 0 || c.x == g.width - 1 || c.y == 0 || c.y == g.height - 1
  }

  /** The border holds exactly the in-bounds cells on one of the four edges. */
  lemma {:induction false} BorderIsEdges(g: Grid, c: Cell)
    requires g.Valid()
    ensures c in Border(g) <==> g.InBounds(c) && OnEdge(g, c)
  {
    var top, bottom := Row(g.width, 0), Row(g.width, g.height - 1);
    var left, right := Column(g.height, 0), Column(g.height, g.width - 1);
    assert Border(g) == top + bottom + left + right;
    if g.InBounds(c) && OnEdge(g, c) {
      if c.y == 0 {
        assert top[c.x] == c;
      } else if c.y == g.height - 1 {
        assert bottom[c.x] == c;
      } else if c.x == 0 {
        assert left[c.y] == c;
      } else {
        assert right[c.y] == c;
      }
    }
  }

  /** Each edge is appended in full, so the list has 2 * (width + height)
      entries, the four corners counted twice. */
  lemma BorderLength(g: Grid)
    requires g.Valid()
    ensures |Border(g)| == 2 * g.width + 2 * g.height
  {
  }

  class Obstacle {
    const grid: Grid
    var positions: seq<Cell>

    constructor (grid: Grid)
      ensures this.grid == grid && positions == []
    {
      this.grid := grid;
      positions := [];
    }

    /** Appends the four edges of the grid, one loop per edge. */
    method AddEdgeObstacles()
      requires grid.Valid()
      modifies this`positions
      ensures positions == old(positions) + Border(grid)
    {
      var start := positions;
      for x := 0 to grid.width
        invariant positions == start + Row(x, 0)
      {
        positions := positions + [Cell(x, 0)];
      }
      var afterTop := positions;
      for x := 0 to grid.width
        invariant positions == afterTop + Row(x, grid.height - 1)
      {
        positions := positions + [Cell(x, grid.height - 1)];
      }
      var afterBottom := positions;
      for y := 0 to grid.height
        invariant positions == afterBottom + Column(y, 0)
      {
        positions := positions + [Cell(0, y)];
      }
      var afterLeft := positions;
      for y := 0 to grid.height
        invariant positions == afterLeft + Column(y, grid.width - 1)
      {
        positions := positions + [Cell(grid.width - 1, y)];
      }
    }

    /** Appends one cell drawn from the whole grid; it may repeat an existing
        obstacle or lie under the snake or the food. */
    method AddObstacle(cell: Cell)
      requires grid.InBounds(cell)
      modifies this`positions
      ensures positions == old(positions) + [cell]
    {
      positions := positions + [cell];
    }
  }
}
