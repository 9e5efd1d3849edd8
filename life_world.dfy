/**
 * The simulation state of one animation: the current grid and the flag that
 * stops further generations once a generation changed nothing. Both
 * animations (the rectangular grid and the circle graph) run this same code
 * on grids of their own size.
 */
module LifeWorld {
  import opened LifeRule
  import opened LifeGrid

  /**
   * The number of live neighbours of (i, j), probed one position at a time:
   * each probe adds one when it finds a LIVE cell; a probe outside the grid
   * finds nothing. Each probe is labelled with its (row, column) offset.
   */
  method CountNeighbours(cellGrid: Grid, i: int, j: int) returns (count: nat)
    ensures count == Count(cellGrid, i, j)
  {
    count := 0;
    count := count + Ind(LiveAt(cellGrid, i - 1, j - 1));  // (-1, -1)
    count := count + Ind(LiveAt(cellGrid, i, j - 1));      // (0, -1)
    count := count + Ind(LiveAt(cellGrid, i + 1, j - 1));  // (+1, -1)
    count := count + Ind(LiveAt(cellGrid, i + 1, j));      // (+1, 0)
    count := count + Ind(LiveAt(cellGrid, i + 1, j + 1));  // (+1, +1)
    count := count + Ind(LiveAt(cellGrid, i, j + 1));      // (0, +1)
    count := count + Ind(LiveAt(cellGrid, i - 1, j + 1));  // (-1, +1)
    count := count + Ind(LiveAt(cellGrid, i - 1, j));      // (-1, 0)
  }

  /**
   * Builds the next generation from `cellGrid`, cell by cell: the count of
   * live neighbours, then the life rule on the cell's value and the count.
   * `cellGrid` is a value, so every probe reads the previous generation.
   */
  method NextGeneration(cellGrid: Grid) returns (newGrid: Grid)
    ensures newGrid == NextGrid(cellGrid)
  {
    ghost var next := NextGrid(cellGrid);
    newGrid := [];
    var i := 0;
    while i < |cellGrid|
      invariant 0 <= i <= |cellGrid|
      invariant newGrid == next[..i]
    {
      var row: seq<int> := [];
      var j := 0;
      while j < |cellGrid[i]|
        invariant 0 <= j <= |cellGrid[i]|
        invariant row == next[i][..j]
      {
        var count := CountNeighbours(cellGrid, i, j);
        var cell := NextValue(cellGrid[i][j], count);
        assert row + [cell] == next[i][..j + 1] by {
          NextGridAt(cellGrid, i, j);
          assert next[i][..j + 1] == next[i][..j] + [next[i][j]];
        }
        row := row + [cell];
        j := j + 1;
      }
      assert newGrid + [row] == next[..i + 1] by {
        assert row == next[i];
        assert next[..i + 1] == next[..i] + [next[i]];
      }
      newGrid := newGrid + [row];
      i := i + 1;
    }
  }

  class World {
    /** The number of rows, fixed when the grid is created. */
    const rows: nat
    /** The number of cells in each row. */
    const cols: nat
    /** The current generation. */
    var cellGrid: Grid
    /** Set when a generation left the grid unchanged; no generation follows. */
    var endState: bool

    /** The grid keeps its dimensions, and every cell holds a cell value. */
    ghost predicate Valid()
      reads this
    {
      IsGrid(cellGrid, rows, cols) && HasCellValues(cellGrid)
    }

    /** A grid of `rows` rows of `cols` empty cells, built row by row. */
    constructor (rows: nat, cols: nat)
      ensures this.rows == rows && this.cols == cols
      ensures cellGrid == Blank(rows, cols) && !endState
      ensures Valid()
    {
      var g: Grid := [];
      var i := 0;
      while i < rows
        invariant 0 <= i <= rows
        invariant g == Blank(rows, cols)[..i]
      {
        var row: seq<int> := [];
        var j := 0;
        while j < cols
          invariant 0 <= j <= cols
          invariant row == Blank(rows, cols)[i][..j]
        {
          row := row + [EMPTY];
          j := j + 1;
        }
        assert row == Blank(rows, cols)[i];
        assert Blank(rows, cols)[..i + 1] == Blank(rows, cols)[..i] + [row];
        g := g + [row];
        i := i + 1;
      }
      assert g == Blank(rows, cols);
      this.rows := rows;
      this.cols := cols;
      cellGrid := g;
      endState := false;
    }

    /** Sets each listed cell to LIVE in turn. */
    method Seed(ps: seq<Position>)
      requires Valid()
      requires forall k :: 0 <= k < |ps| ==> 0 <= ps[k].0 < rows && 0 <= ps[k].1 < cols
      modifies this
      ensures Valid() && endState == old(endState)
      ensures AllInRange(old(cellGrid), ps) && cellGrid == Seeded(old(cellGrid), ps)
    {
      var k := 0;
      while k < |ps|
        invariant 0 <= k <= |ps|
        invariant Valid() && endState == old(endState)
        invariant AllInRange(old(cellGrid), ps[..k])
        invariant cellGrid == Seeded(old(cellGrid), ps[..k])
      {
        var (x, y) := ps[k];
        cellGrid := cellGrid[x := cellGrid[x][y := LIVE]];
        assert ps[..k + 1][..k] == ps[..k];
        k := k + 1;
      }
      assert ps[..|ps|] == ps;
    }

    /**
     * One generation. When the next generation equals the current one cell
     * for cell, the grid is kept and `endState` is set; otherwise the grid is
     * replaced. A grid kept this way has no dying or faded cells.
     */
    method UpdateCells()
      requires Valid()
      modifies this
      ensures Valid()
      ensures old(endState) ==> endState
      ensures NextGrid(old(cellGrid)) == old(cellGrid) ==>
        endState && cellGrid == old(cellGrid) &&
        forall i, j :: InRange(cellGrid, i, j) ==> cellGrid[i][j] == LIVE || cellGrid[i][j] == EMPTY
      ensures NextGrid(old(cellGrid)) != old(cellGrid) ==>
        endState == old(endState) && cellGrid == NextGrid(old(cellGrid))
    {
      var newGrid := NextGeneration(cellGrid);
      NextGridShape(cellGrid, rows, cols);
      // Both grids have the same shape, so comparing their comma-joined
      // texts is comparing them cell for cell.
      if cellGrid == newGrid {
        StaleGridHasNoDeadStates(cellGrid);
        endState := true;
      } else {
        cellGrid := newGrid;
      }
    }

    /**
     * One animation frame. `due` says whether enough time has passed for
     * the next generation; once `endState` is set nothing changes any more.
     */
    method Update(due: bool)
      requires Valid()
      modifies this
      ensures Valid()
      ensures old(endState) ==> endState
      ensures old(endState) || !due ==> cellGrid == old(cellGrid) && endState == old(endState)
      ensures !old(endState) && due && NextGrid(old(cellGrid)) == old(cellGrid) ==>
        endState && cellGrid == old(cellGrid)
      ensures !old(endState) && due && NextGrid(old(cellGrid)) != old(cellGrid) ==>
        !endState && cellGrid == NextGrid(old(cellGrid))
    {
      if !endState {
        if due {
          UpdateCells();
        }
      }
    }
  }
}
