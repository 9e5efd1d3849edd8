/**
 * The rectangular animation: a 30 x 30 grid seeded with a fixed pattern
 * near its middle (two small clusters at opposite sides and a V with a
 * tail in the centre).
 */
module Traditional {
  import opened LifeRule
  import opened LifeGrid
  import opened LifeWorld

  const GRID_WIDTH: nat := 30
  const GRID_HEIGHT: nat := 30

  const MIDDLE_X: int := GRID_WIDTH / 2
  const MIDDLE_Y: int := GRID_HEIGHT / 2

  /**
   * The starting pattern. The first coordinate, derived from the width,
   * indexes the rows of the grid and the second, derived from the height,
   * the cells of a row; the grid is square, so both are in range.
   */
  const SEED_CELLS: seq<Position> := [
    (MIDDLE_X - 10, MIDDLE_Y - 3),
    (MIDDLE_X - 11, MIDDLE_Y - 3),
    (MIDDLE_X - 11, MIDDLE_Y - 4),
    (MIDDLE_X - 11, MIDDLE_Y - 5),
    (MIDDLE_X - 12, MIDDLE_Y - 3),
    (MIDDLE_X - 12, MIDDLE_Y - 4),
    (MIDDLE_X - 13, MIDDLE_Y - 3),
    (MIDDLE_X - 2, MIDDLE_Y),
    (MIDDLE_X - 1, MIDDLE_Y + 1),
    (MIDDLE_X, MIDDLE_Y + 2),
    (MIDDLE_X + 1, MIDDLE_Y + 1),
    (MIDDLE_X + 2, MIDDLE_Y),
    (MIDDLE_X, MIDDLE_Y - 2),
    (MIDDLE_X, MIDDLE_Y - 3),
    (MIDDLE_X, MIDDLE_Y - 4),
    (MIDDLE_X + 10, MIDDLE_Y + 3),
    (MIDDLE_X + 11, MIDDLE_Y + 3),
    (MIDDLE_X + 11, MIDDLE_Y + 4),
    (MIDDLE_X + 11, MIDDLE_Y + 5),
    (MIDDLE_X + 12, MIDDLE_Y + 3),
    (MIDDLE_X + 12, MIDDLE_Y + 4),
    (MIDDLE_X + 13, MIDDLE_Y + 3)
  ]

  /** The empty 30 x 30 grid. */
  function EmptyGrid(): (g: Grid)
    ensures IsGrid(g, GRID_HEIGHT, GRID_WIDTH)
  {
    Blank(GRID_HEIGHT, GRID_WIDTH)
  }

  /** Every seed lies inside the grid. */
  lemma SeedCellsInRange()
    ensures AllInRange(EmptyGrid(), SEED_CELLS)
  {
  }

  /**
   * Creates the animation's state: an empty 30 x 30 grid, then each seed
   * cell set to LIVE; no end state yet.
   */
  method NewGame() returns (w: World)
    ensures fresh(w) && w.Valid() && !w.endState
    ensures w.rows == GRID_HEIGHT && w.cols == GRID_WIDTH
    ensures AllInRange(EmptyGrid(), SEED_CELLS) && w.cellGrid == Seeded(EmptyGrid(), SEED_CELLS)
  {
    w := new World(GRID_HEIGHT, GRID_WIDTH);
    w.Seed(SEED_CELLS);
  }

  /**
   * The starting grid: 30 x 30, LIVE exactly at the seed cells and empty
   * everywhere else; listing a seed twice would change nothing.
   */
  lemma StartingGrid()
    ensures AllInRange(EmptyGrid(), SEED_CELLS)
    ensures IsGrid(Seeded(EmptyGrid(), SEED_CELLS), GRID_HEIGHT, GRID_WIDTH)
    ensures forall i, j :: 0 <= i < GRID_HEIGHT && 0 <= j < GRID_WIDTH ==>
      Seeded(EmptyGrid(), SEED_CELLS)[i][j] == if (i, j) in SEED_CELLS then LIVE else EMPTY
    ensures forall k :: 0 <= k < |SEED_CELLS| ==>
      AllInRange(EmptyGrid(), SEED_CELLS + [SEED_CELLS[k]]) &&
      Seeded(EmptyGrid(), SEED_CELLS + [SEED_CELLS[k]]) == Seeded(EmptyGrid(), SEED_CELLS)
  {
    SeedCellsInRange();
    SeededBlank(GRID_HEIGHT, GRID_WIDTH, SEED_CELLS);
    forall k | 0 <= k < |SEED_CELLS|
      ensures AllInRange(EmptyGrid(), SEED_CELLS + [SEED_CELLS[k]])
      ensures Seeded(EmptyGrid(), SEED_CELLS + [SEED_CELLS[k]]) == Seeded(EmptyGrid(), SEED_CELLS)
    {
      RepeatedSeedChangesNothing(EmptyGrid(), SEED_CELLS, k);
    }
  }
}
