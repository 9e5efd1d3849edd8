/**
 * The grid as a value: a sequence of rows of cell values, the bounded Moore
 * neighbourhood (no wraparound at any edge), the live-neighbour count, the
 * next generation as a whole, and the effect of seeding.
 */
module LifeGrid {
  import opened LifeRule

  type Position = (int, int)

  /** Rows of cells, indexed `g[row][column]`. */
  type Grid = seq<seq<int>>

  /** `g` has `rows` rows of `cols` cells each. */
  predicate IsGrid(g: Grid, rows: nat, cols: nat) {
    |g| == rows && forall i :: 0 <= i < rows ==> |g[i]| == cols
  }

  /** Every cell of `g` holds one of the four cell values. */
  predicate HasCellValues(g: Grid) {
    forall i, j :: 0 <= i < |g| && 0 <= j < |g[i]| ==> IsCellValue(g[i][j])
  }

  /** `g` and `h` have the same rows, each of the same length. */
  predicate SameShape(g: Grid, h: Grid) {
    |g| == |h| && forall i :: 0 <= i < |g| ==> |g[i]| == |h[i]|
  }

  predicate InRange(g: Grid, i: int, j: int) {
    0 <= i < |g| && 0 <= j < |g[i]|
  }

  /**
   * What one neighbour probe sees: a position outside the grid holds no cell
   * and is not live, and of the cell values only LIVE is live.
   */
  predicate LiveAt(g: Grid, i: int, j: int) {
    InRange(g, i, j) && g[i][j] == LIVE
  }

  /** A grid of `rows` rows of `cols` empty cells. */
  function Blank(rows: nat, cols: nat): (g: Grid)
    ensures IsGrid(g, rows, cols) && HasCellValues(g)
    ensures forall i, j :: 0 <= i < rows && 0 <= j < cols ==> g[i][j] == EMPTY
  {
    seq(rows, _ => seq(cols, _ => EMPTY))
  }

  // ---------------------------------------------------------------------------
  // Neighbourhood and count

  /** The eight positions around (i, j), row by row. */
  function Window(i: int, j: int): seq<Position> {
    [(i - 1, j - 1), (i - 1, j), (i - 1, j + 1),
     (i, j - 1), (i, j + 1),
     (i + 1, j - 1), (i + 1, j), (i + 1, j + 1)]
  }

  /** The window is the Moore neighbourhood: the positions one step away in each direction, the cell itself excluded. */
  lemma WindowIsMoore(i: int, j: int, p: Position)
    ensures p in Window(i, j) <==> i - 1 <= p.0 <= i + 1 && j - 1 <= p.1 <= j + 1 && p != (i, j)
  {
  }

  /** The positions of `ps` that satisfy `keep`. */
  ghost function Kept(ps: seq<Position>, keep: (int, int) -> bool): set<Position> {
    set p | p in ps && keep(p.0, p.1)
  }

  /** The positions around (i, j) that satisfy `keep`. */
  ghost function Around(i: int, j: int, keep: (int, int) -> bool): set<Position> {
    Kept(Window(i, j), keep)
  }

  /** The neighbours of (i, j) inside the grid: there is no wraparound. */
  ghost function Neighbours(g: Grid, i: int, j: int): set<Position> {
    Around(i, j, (a, b) => InRange(g, a, b))
  }

  /** The live neighbours of (i, j). */
  ghost function LiveNeighbours(g: Grid, i: int, j: int): set<Position> {
    Around(i, j, (a, b) => LiveAt(g, a, b))
  }

  /** One for a probe that finds what it looks for, zero otherwise. */
  function Ind(b: bool): nat {
    if b then 1 else 0
  }

  ghost predicate Distinct(ps: seq<Position>) {
    forall k, l :: 0 <= k < l < |ps| ==> ps[k] != ps[l]
  }

  /** The number of entries of `ps` that satisfy `keep`, one probe at a time. */
  ghost function CountKept(ps: seq<Position>, keep: (int, int) -> bool): nat {
    if ps == [] then 0 else Ind(keep(ps[0].0, ps[0].1)) + CountKept(ps[1..], keep)
  }

  /** Probing a list of distinct positions one at a time counts the set of those kept. */
  lemma {:induction false} KeptCard(ps: seq<Position>, keep: (int, int) -> bool)
    requires Distinct(ps)
    ensures |Kept(ps, keep)| == CountKept(ps, keep)
  {
    if ps != [] {
      var x, rest := ps[0], ps[1..];
      assert Distinct(rest) by {
        forall k, l | 0 <= k < l < |rest| ensures rest[k] != rest[l] {
          assert rest[k] == ps[k + 1] && rest[l] == ps[l + 1];
        }
      }
      KeptCard(rest, keep);
      assert x !in Kept(rest, keep) by {
        forall k | 0 <= k < |rest| ensures rest[k] != x {
          assert rest[k] == ps[k + 1];
        }
      }
      assert forall p :: p in ps <==> p == x || p in rest by {
        assert ps == [x] + rest;
      }
      if keep(x.0, x.1) {
        assert Kept(ps, keep) == Kept(rest, keep) + {x};
      } else {
        assert Kept(ps, keep) == Kept(rest, keep);
      }
    }
  }

  /** The probe-by-probe count over the window, written out. */
  lemma CountKeptWindow(i: int, j: int, keep: (int, int) -> bool)
    ensures CountKept(Window(i, j), keep) ==
      Ind(keep(i - 1, j - 1)) + Ind(keep(i - 1, j)) + Ind(keep(i - 1, j + 1)) +
      Ind(keep(i, j - 1)) + Ind(keep(i, j + 1)) +
      Ind(keep(i + 1, j - 1)) + Ind(keep(i + 1, j)) + Ind(keep(i + 1, j + 1))
  {
    var w := Window(i, j);
    assert CountKept(w[7..], keep) == Ind(keep(i + 1, j + 1)) + CountKept(w[8..], keep);
    assert CountKept(w[6..], keep) == Ind(keep(i + 1, j)) + CountKept(w[7..], keep);
    assert CountKept(w[5..], keep) == Ind(keep(i + 1, j - 1)) + CountKept(w[6..], keep);
    assert CountKept(w[4..], keep) == Ind(keep(i, j + 1)) + CountKept(w[5..], keep);
    assert CountKept(w[3..], keep) == Ind(keep(i, j - 1)) + CountKept(w[4..], keep);
    assert CountKept(w[2..], keep) == Ind(keep(i - 1, j + 1)) + CountKept(w[3..], keep);
    assert CountKept(w[1..], keep) == Ind(keep(i - 1, j)) + CountKept(w[2..], keep);
    assert w[0..] == w;
  }

  /** The eight positions of the window are distinct. */
  lemma WindowDistinct(i: int, j: int)
    ensures Distinct(Window(i, j))
  {
  }

  /**
   * Counting the positions around (i, j) that satisfy `keep` is the same as
   * probing the eight offsets one by one and adding one for each hit.
   */
  lemma AroundIsEightProbes(i: int, j: int, keep: (int, int) -> bool)
    ensures |Around(i, j, keep)| ==
      Ind(keep(i - 1, j - 1)) + Ind(keep(i - 1, j)) + Ind(keep(i - 1, j + 1)) +
      Ind(keep(i, j - 1)) + Ind(keep(i, j + 1)) +
      Ind(keep(i + 1, j - 1)) + Ind(keep(i + 1, j)) + Ind(keep(i + 1, j + 1))
  {
    WindowDistinct(i, j);
    KeptCard(Window(i, j), keep);
    CountKeptWindow(i, j, keep);
  }

  /**
   * The number of live neighbours of (i, j), the count the life rule uses:
   * one for each of the eight surrounding positions that holds a LIVE cell.
   */
  ghost function Count(g: Grid, i: int, j: int): nat {
    Ind(LiveAt(g, i - 1, j - 1)) + Ind(LiveAt(g, i - 1, j)) + Ind(LiveAt(g, i - 1, j + 1)) +
    Ind(LiveAt(g, i, j - 1)) + Ind(LiveAt(g, i, j + 1)) +
    Ind(LiveAt(g, i + 1, j - 1)) + Ind(LiveAt(g, i + 1, j)) + Ind(LiveAt(g, i + 1, j + 1))
  }

  /** The count is the size of the set of live neighbours. */
  lemma CountIsLiveNeighbours(g: Grid, i: int, j: int)
    ensures Count(g, i, j) == |LiveNeighbours(g, i, j)|
  {
    AroundIsEightProbes(i, j, (a, b) => LiveAt(g, a, b));
  }

  /** The number of neighbours inside the grid, by the same eight probes. */
  lemma NeighboursByProbes(g: Grid, i: int, j: int)
    ensures |Neighbours(g, i, j)| ==
      Ind(InRange(g, i - 1, j - 1)) + Ind(InRange(g, i, j - 1)) + Ind(InRange(g, i + 1, j - 1)) +
      Ind(InRange(g, i + 1, j)) + Ind(InRange(g, i + 1, j + 1)) + Ind(InRange(g, i, j + 1)) +
      Ind(InRange(g, i - 1, j + 1)) + Ind(InRange(g, i - 1, j))
  {
    AroundIsEightProbes(i, j, (a, b) => InRange(g, a, b));
  }

  /** Only live neighbours are counted, and there are at most as many as neighbours, so at most eight. */
  lemma CountBounds(g: Grid, i: int, j: int)
    ensures LiveNeighbours(g, i, j) <= Neighbours(g, i, j)
    ensures Count(g, i, j) <= |Neighbours(g, i, j)| <= 8
  {
    CountIsLiveNeighbours(g, i, j);
    NeighboursByProbes(g, i, j);
  }

  /** A corner cell of a grid of at least two rows and two columns has three neighbours. */
  lemma CornerNeighbours(g: Grid, rows: nat, cols: nat, i: int, j: int)
    requires IsGrid(g, rows, cols) && rows >= 2 && cols >= 2
    requires (i == 0 || i == rows - 1) && (j == 0 || j == cols - 1)
    ensures |Neighbours(g, i, j)| == 3 && Count(g, i, j) <= 3
  {
    NeighboursByProbes(g, i, j);
    CountBounds(g, i, j);
  }

  /** A cell on exactly one border of a grid of at least two rows and two columns has five neighbours. */
  lemma EdgeNeighbours(g: Grid, rows: nat, cols: nat, i: int, j: int)
    requires IsGrid(g, rows, cols) && rows >= 2 && cols >= 2 && InRange(g, i, j)
    requires (i == 0 || i == rows - 1) != (j == 0 || j == cols - 1)
    ensures |Neighbours(g, i, j)| == 5 && Count(g, i, j) <= 5
  {
    NeighboursByProbes(g, i, j);
    CountBounds(g, i, j);
  }

  /** A cell on no border has all eight neighbours. */
  lemma InteriorNeighbours(g: Grid, rows: nat, cols: nat, i: int, j: int)
    requires IsGrid(g, rows, cols)
    requires 0 < i < rows - 1 && 0 < j < cols - 1
    ensures |Neighbours(g, i, j)| == 8
  {
    NeighboursByProbes(g, i, j);
  }

  /**
   * The count depends only on which cells are live: two grids of the same
   * shape whose LIVE cells coincide give every position the same count,
   * whatever their dying, faded and empty cells are.
   */
  lemma OnlyLiveCellsCount(g: Grid, h: Grid, i: int, j: int)
    requires SameShape(g, h)
    requires forall a, b :: InRange(g, a, b) ==> (g[a][b] == LIVE <==> h[a][b] == LIVE)
    ensures LiveNeighbours(g, i, j) == LiveNeighbours(h, i, j)
    ensures Count(g, i, j) == Count(h, i, j)
  {
  }

  // ---------------------------------------------------------------------------
  // One generation

  /** The next generation: every cell by the life rule, from this generation only. */
  ghost function NextGrid(g: Grid): Grid {
    seq(|g|, i requires 0 <= i < |g| =>
      seq(|g[i]|, j requires 0 <= j < |g[i]| => NextValue(g[i][j], Count(g, i, j))))
  }

  /** Each cell of the next generation is the rule applied to the cell and its count. */
  lemma NextGridAt(g: Grid, i: int, j: int)
    requires InRange(g, i, j)
    ensures |NextGrid(g)| == |g| && |NextGrid(g)[i]| == |g[i]|
    ensures NextGrid(g)[i][j] == NextValue(g[i][j], Count(g, i, j))
  {
  }

  /** A generation keeps the grid's dimensions and yields only cell values. */
  lemma NextGridShape(g: Grid, rows: nat, cols: nat)
    requires IsGrid(g, rows, cols)
    ensures IsGrid(NextGrid(g), rows, cols) && HasCellValues(NextGrid(g))
  {
  }

  /**
   * A grid that a generation leaves unchanged holds no dying or faded cells,
   * since neither value maps to itself.
   */
  lemma {:induction false} StaleGridHasNoDeadStates(g: Grid)
    requires NextGrid(g) == g
    ensures forall i, j :: InRange(g, i, j) ==> g[i][j] == LIVE || g[i][j] == EMPTY
  {
    forall i, j | InRange(g, i, j)
      ensures g[i][j] == LIVE || g[i][j] == EMPTY
    {
      assert NextGrid(g)[i][j] == NextValue(g[i][j], Count(g, i, j));
      FixedValuesAreLiveOrEmpty(g[i][j], Count(g, i, j));
    }
  }

  /** A 2 x 2 block of live cells at rows r, r + 1 and columns c, c + 1; every other cell is empty. */
  ghost predicate Block(g: Grid, rows: nat, cols: nat, r: int, c: int) {
    IsGrid(g, rows, cols) && 0 <= r && r + 1 < rows && 0 <= c && c + 1 < cols &&
    forall a, b :: InRange(g, a, b) ==> g[a][b] == if r <= a <= r + 1 && c <= b <= c + 1 then LIVE else EMPTY
  }

  /** Each cell of a block has three live neighbours, and no other cell has more than two. */
  lemma BlockCount(g: Grid, rows: nat, cols: nat, r: int, c: int, a: int, b: int)
    requires Block(g, rows, cols, r, c)
    ensures if r <= a <= r + 1 && c <= b <= c + 1 then Count(g, a, b) == 3 else Count(g, a, b) <= 2
  {
  }

  /**
   * A block is a still life: the next generation equals it cell for cell,
   * so the generation that meets it is the last.
   */
  lemma {:induction false} BlockIsStill(g: Grid, rows: nat, cols: nat, r: int, c: int)
    requires Block(g, rows, cols, r, c)
    ensures NextGrid(g) == g
  {
    forall a | 0 <= a < rows ensures NextGrid(g)[a] == g[a] {
      forall b | 0 <= b < cols ensures NextGrid(g)[a][b] == g[a][b] {
        BlockCount(g, rows, cols, r, c, a, b);
      }
    }
  }

  /** A grid with no live cell: only the value `v` at (i, j), every other cell empty. */
  ghost predicate Lonely(g: Grid, rows: nat, cols: nat, i: int, j: int, v: int) {
    IsGrid(g, rows, cols) && InRange(g, i, j) && g[i][j] == v &&
    forall a, b :: InRange(g, a, b) && (a != i || b != j) ==> g[a][b] == EMPTY
  }

  /** With at most one live cell, at (p, q), no position has more than one live neighbour. */
  lemma AtMostOneNeighbour(g: Grid, p: int, q: int, i: int, j: int)
    requires forall a, b :: LiveAt(g, a, b) ==> a == p && b == q
    ensures Count(g, i, j) <= 1
  {
  }

  /** An isolated live cell dies: it becomes dying, and every other cell stays empty. */
  lemma {:induction false} LonelyLiveDies(g: Grid, rows: nat, cols: nat, i: int, j: int)
    requires Lonely(g, rows, cols, i, j, LIVE)
    ensures Lonely(NextGrid(g), rows, cols, i, j, DYING)
  {
    var n := NextGrid(g);
    forall a, b | InRange(n, a, b) && (a != i || b != j) ensures n[a][b] == EMPTY {
      AtMostOneNeighbour(g, i, j, a, b);
    }
    AtMostOneNeighbour(g, i, j, i, j);
  }

  /** With no live cell at all, every position has a count of zero. */
  lemma NoLiveNoCount(g: Grid, i: int, j: int)
    requires forall a, b :: InRange(g, a, b) ==> g[a][b] != LIVE
    ensures Count(g, i, j) == 0
  {
  }

  /** An isolated dying cell fades, and every other cell stays empty. */
  lemma {:induction false} LonelyDyingFades(g: Grid, rows: nat, cols: nat, i: int, j: int)
    requires Lonely(g, rows, cols, i, j, DYING)
    ensures Lonely(NextGrid(g), rows, cols, i, j, FADED)
  {
    var n := NextGrid(g);
    forall a, b | InRange(n, a, b) ensures n[a][b] == if a == i && b == j then FADED else EMPTY {
      NoLiveNoCount(g, a, b);
    }
  }

  /** A grid whose only non-empty cell is faded, or that has none, becomes all empty. */
  lemma {:induction false} FadedClears(g: Grid, rows: nat, cols: nat, i: int, j: int)
    requires Lonely(g, rows, cols, i, j, FADED) || g == Blank(rows, cols)
    ensures NextGrid(g) == Blank(rows, cols)
  {
    var n, z := NextGrid(g), Blank(rows, cols);
    forall a | 0 <= a < rows ensures n[a] == z[a] {
      forall b | 0 <= b < cols ensures n[a][b] == EMPTY {
        NoLiveNoCount(g, a, b);
      }
    }
  }

  /**
   * The fade sequence of an isolated live cell: live, then dying, then faded,
   * then an empty grid, which every later generation leaves as it is.
   */
  lemma {:induction false} FadeSequence(g: Grid, rows: nat, cols: nat, i: int, j: int)
    requires Lonely(g, rows, cols, i, j, LIVE)
    ensures Lonely(NextGrid(g), rows, cols, i, j, DYING)
    ensures Lonely(NextGrid(NextGrid(g)), rows, cols, i, j, FADED)
    ensures NextGrid(NextGrid(NextGrid(g))) == Blank(rows, cols)
    ensures NextGrid(Blank(rows, cols)) == Blank(rows, cols)
  {
    LonelyLiveDies(g, rows, cols, i, j);
    LonelyDyingFades(NextGrid(g), rows, cols, i, j);
    FadedClears(NextGrid(NextGrid(g)), rows, cols, i, j);
    FadedClears(Blank(rows, cols), rows, cols, i, j);
  }

  // ---------------------------------------------------------------------------
  // Seeding

  /** The positions `ps` all lie inside `g`. */
  predicate AllInRange(g: Grid, ps: seq<Position>) {
    forall k :: 0 <= k < |ps| ==> InRange(g, ps[k].0, ps[k].1)
  }

  /** `g` with the cell at `p` set to LIVE. */
  function Mark(g: Grid, p: Position): (h: Grid)
    requires InRange(g, p.0, p.1)
    ensures SameShape(g, h)
    ensures forall a, b :: InRange(g, a, b) ==> h[a][b] == if (a, b) == p then LIVE else g[a][b]
  {
    g[p.0 := g[p.0][p.1 := LIVE]]
  }

  /** `g` after setting each position of `ps` to LIVE, in order. */
  ghost function Seeded(g: Grid, ps: seq<Position>): (h: Grid)
    requires AllInRange(g, ps)
    ensures SameShape(g, h)
    decreases |ps|
  {
    if ps == [] then g
    else
      var h := Seeded(g, ps[..|ps| - 1]);
      Mark(h, ps[|ps| - 1])
  }

  /** After seeding, a cell is LIVE if it was listed and is as it was otherwise. */
  lemma {:induction false} SeededAt(g: Grid, ps: seq<Position>, i: int, j: int)
    requires AllInRange(g, ps) && InRange(g, i, j)
    ensures Seeded(g, ps)[i][j] == if (i, j) in ps then LIVE else g[i][j]
    decreases |ps|
  {
    if ps != [] {
      var init := ps[..|ps| - 1];
      assert AllInRange(g, init);
      SeededAt(g, init, i, j);
      assert ps == init + [ps[|ps| - 1]];
    }
  }

  /**
   * Seeding depends only on the set of listed positions: their order and
   * repetitions do not change the resulting grid.
   */
  lemma {:induction false} SeedingIgnoresOrderAndRepeats(g: Grid, ps: seq<Position>, qs: seq<Position>)
    requires AllInRange(g, ps) && AllInRange(g, qs)
    requires forall p :: p in ps <==> p in qs
    ensures Seeded(g, ps) == Seeded(g, qs)
  {
    var h, k := Seeded(g, ps), Seeded(g, qs);
    forall i | 0 <= i < |g| ensures h[i] == k[i] {
      forall j | 0 <= j < |g[i]| ensures h[i][j] == k[i][j] {
        SeededAt(g, ps, i, j);
        SeededAt(g, qs, i, j);
      }
    }
  }

  /**
   * Seeding an empty grid: the grid keeps its dimensions, the listed cells
   * are LIVE and all others empty.
   */
  lemma {:induction false} SeededBlank(rows: nat, cols: nat, ps: seq<Position>)
    requires AllInRange(Blank(rows, cols), ps)
    ensures IsGrid(Seeded(Blank(rows, cols), ps), rows, cols)
    ensures forall i, j :: 0 <= i < rows && 0 <= j < cols ==>
      Seeded(Blank(rows, cols), ps)[i][j] == if (i, j) in ps then LIVE else EMPTY
  {
    var z := Blank(rows, cols);
    forall i, j | 0 <= i < rows && 0 <= j < cols
      ensures Seeded(z, ps)[i][j] == if (i, j) in ps then LIVE else EMPTY
    {
      SeededAt(z, ps, i, j);
    }
  }

  /** Listing one of the positions once more does not change the seeded grid. */
  lemma {:induction false} RepeatedSeedChangesNothing(g: Grid, ps: seq<Position>, k: int)
    requires AllInRange(g, ps) && 0 <= k < |ps|
    ensures AllInRange(g, ps + [ps[k]])
    ensures Seeded(g, ps + [ps[k]]) == Seeded(g, ps)
  {
    var again := ps + [ps[k]];
    assert forall p :: p in again <==> p in ps;
    SeedingIgnoresOrderAndRepeats(g, again, ps);
  }

  /** The positions of the live cells of `g`. */
  ghost function LiveCells(g: Grid): set<Position> {
    set i, j | 0 <= i < |g| && 0 <= j < |g[i]| && g[i][j] == LIVE :: (i, j)
  }

  /** The distinct positions of a list. */
  ghost function Listed(ps: seq<Position>): set<Position> {
    set p | p in ps
  }

  /** A list has at least as many entries as distinct positions. */
  lemma {:induction false} ListedAtMostLength(ps: seq<Position>)
    ensures |Listed(ps)| <= |ps|
  {
    if ps != [] {
      ListedAtMostLength(ps[1..]);
      assert Listed(ps) == Listed(ps[1..]) + {ps[0]};
    }
  }

  /**
   * Seeding an empty grid makes exactly the listed cells live, so there are at
   * most as many live cells as entries in the list.
   */
  lemma {:induction false} SeededBlankLiveCells(rows: nat, cols: nat, ps: seq<Position>)
    requires AllInRange(Blank(rows, cols), ps)
    ensures LiveCells(Seeded(Blank(rows, cols), ps)) == Listed(ps)
    ensures |LiveCells(Seeded(Blank(rows, cols), ps))| <= |ps|
  {
    var z := Blank(rows, cols);
    var h := Seeded(z, ps);
    forall p | p in LiveCells(h) ensures p in Listed(ps) {
      SeededAt(z, ps, p.0, p.1);
    }
    forall p | p in Listed(ps) ensures p in LiveCells(h) {
      var k :| 0 <= k < |ps| && ps[k] == p;
      SeededAt(z, ps, p.0, p.1);
    }
    ListedAtMostLength(ps);
  }
}
