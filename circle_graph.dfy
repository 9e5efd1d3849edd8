/**
 * The circle-graph animation: NUM_GRAPH_STEPS concentric rings, each cut
 * into NUM_GRAPH_QUADRANTS quadrants, stored as a grid with one row per ring
 * and one cell per quadrant, seeded by random draws. Although the drawing
 * closes each ring, the neighbour probes do not wrap around: quadrant -1 and
 * quadrant NUM_GRAPH_QUADRANTS hold no cell, exactly like the borders of the
 * rectangular grid.
 */
module CircleGraph {
  import opened LifeRule
  import opened LifeGrid
  import opened LifeWorld

  const NUM_GRAPH_STEPS: nat := 20
  const NUM_GRAPH_QUADRANTS: nat := 20

  /** The number of random draws made while seeding. */
  const SEED_DRAWS: nat := NUM_GRAPH_QUADRANTS * NUM_GRAPH_STEPS - 20

  /**
   * One random draw: the first index, below NUM_GRAPH_QUADRANTS, selects the
   * row and the second, below NUM_GRAPH_STEPS, the cell of that row.
   */
  predicate IsDraw(d: Position) {
    0 <= d.0 < NUM_GRAPH_QUADRANTS && 0 <= d.1 < NUM_GRAPH_STEPS
  }

  /** The empty grid: one row of NUM_GRAPH_QUADRANTS cells per ring. */
  function EmptyGrid(): (g: Grid)
    ensures IsGrid(g, NUM_GRAPH_STEPS, NUM_GRAPH_QUADRANTS)
  {
    Blank(NUM_GRAPH_STEPS, NUM_GRAPH_QUADRANTS)
  }

  /**
   * A draw lands inside the grid. This holds because the two dimensions are
   * equal: the first index is drawn below the number of quadrants but
   * selects a ring.
   */
  lemma DrawsInRange(draws: seq<Position>)
    requires forall k :: 0 <= k < |draws| ==> IsDraw(draws[k])
    ensures AllInRange(EmptyGrid(), draws)
  {
  }

  /**
   * Creates the animation's state from the random draws: an empty grid,
   * then the cell of each draw set to LIVE; no end state yet.
   */
  method NewGame(draws: seq<Position>) returns (w: World)
    requires |draws| == SEED_DRAWS
    requires forall k :: 0 <= k < |draws| ==> IsDraw(draws[k])
    ensures fresh(w) && w.Valid() && !w.endState
    ensures w.rows == NUM_GRAPH_STEPS && w.cols == NUM_GRAPH_QUADRANTS
    ensures AllInRange(EmptyGrid(), draws) && w.cellGrid == Seeded(EmptyGrid(), draws)
  {
    w := new World(NUM_GRAPH_STEPS, NUM_GRAPH_QUADRANTS);
    w.Seed(draws);
  }

  /**
   * After seeding, every drawn cell is LIVE and every other cell is empty,
   * and there are at most as many live cells as draws: a repeated draw sets
   * a cell that is already live.
   */
  lemma StartingGrid(draws: seq<Position>)
    requires |draws| == SEED_DRAWS
    requires forall k :: 0 <= k < |draws| ==> IsDraw(draws[k])
    ensures AllInRange(EmptyGrid(), draws)
    ensures forall i, j :: 0 <= i < NUM_GRAPH_STEPS && 0 <= j < NUM_GRAPH_QUADRANTS ==>
      Seeded(EmptyGrid(), draws)[i][j] == if (i, j) in draws then LIVE else EMPTY
    ensures LiveCells(Seeded(EmptyGrid(), draws)) == Listed(draws)
    ensures |LiveCells(Seeded(EmptyGrid(), draws))| <= SEED_DRAWS
  {
    DrawsInRange(draws);
    SeededBlank(NUM_GRAPH_STEPS, NUM_GRAPH_QUADRANTS, draws);
    SeededBlankLiveCells(NUM_GRAPH_STEPS, NUM_GRAPH_QUADRANTS, draws);
  }

  /**
   * The neighbour count in the order the circle graph probes: the rings
   * inside and outside, the quadrants before and after, then the four
   * diagonals; each probe is labelled with its (ring, quadrant) offset. It is the same count as the rectangular grid's.
   */
  function ProbeCount(g: Grid, i: int, j: int): (n: nat)
    ensures n == Count(g, i, j) == |LiveNeighbours(g, i, j)|
  {
    CountIsLiveNeighbours(g, i, j);
    Ind(LiveAt(g, i - 1, j)) +      // (-1, 0)
    Ind(LiveAt(g, i + 1, j)) +      // (+1, 0)
    Ind(LiveAt(g, i, j - 1)) +      // (0, -1)
    Ind(LiveAt(g, i, j + 1)) +      // (0, +1)
    Ind(LiveAt(g, i - 1, j - 1)) +  // (-1, -1)
    Ind(LiveAt(g, i + 1, j - 1)) +  // (+1, -1)
    Ind(LiveAt(g, i - 1, j + 1)) +  // (-1, +1)
    Ind(LiveAt(g, i + 1, j + 1))    // (+1, +1)
  }

  /**
   * No angular wraparound: the first and the last quadrant of a ring are not
   * neighbours, so a cell of the first or last quadrant has at most five
   * neighbours (three on the innermost and outermost rings).
   */
  lemma NoAngularWraparound(g: Grid, i: int)
    requires IsGrid(g, NUM_GRAPH_STEPS, NUM_GRAPH_QUADRANTS) && 0 <= i < NUM_GRAPH_STEPS
    ensures (i, NUM_GRAPH_QUADRANTS - 1) !in Neighbours(g, i, 0)
    ensures (i, 0) !in Neighbours(g, i, NUM_GRAPH_QUADRANTS - 1)
    ensures |Neighbours(g, i, 0)| <= 5 && |Neighbours(g, i, NUM_GRAPH_QUADRANTS - 1)| <= 5
    ensures i == 0 || i == NUM_GRAPH_STEPS - 1 ==>
      |Neighbours(g, i, 0)| == 3 && |Neighbours(g, i, NUM_GRAPH_QUADRANTS - 1)| == 3
  {
    WindowIsMoore(i, 0, (i, NUM_GRAPH_QUADRANTS - 1));
    WindowIsMoore(i, NUM_GRAPH_QUADRANTS - 1, (i, 0));
    NeighboursByProbes(g, i, 0);
    NeighboursByProbes(g, i, NUM_GRAPH_QUADRANTS - 1);
  }
}
