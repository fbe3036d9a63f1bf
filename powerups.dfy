/** The power-up: one cell carrying an effect kind, collectable only while
    active. */
module PowerUps {
  import opened Cells
  import opened Effects

  class PowerUp {
    const grid: Grid
    var position: Cell
    var active: bool
    var kind: EffectKind

    /** A new power-up is inactive, at (width / 2, height / 3), with a
        randomly chosen kind. */
    constructor (grid: Grid, kind: EffectKind)
      ensures this.grid == grid && this.kind == kind
      ensures position == Cell(grid.width / 2, grid.height / 3) && !active
    {
      this.grid := grid;
      position := Cell(grid.width / 2, grid.height / 3);
      active := false;
      this.kind := kind;
    }

    /** Spawns the power-up at the centre of the grid with a newly drawn kind. */
    method RandomizePosition(kind: EffectKind)
      modifies this`position, this`active, this`kind
      ensures position == grid.Centre() && active && this.kind == kind
    {
      position := grid.Centre();
      active := true;
      this.kind := kind;
    }
  }
}
