# Game of Life, two animations

This project models the simulation core of two browser animations of
Conway's Game of Life. The rectangular animation runs on a 30 x 30 grid
seeded with a fixed pattern. The circle graph uses 20 concentric rings of 20
quadrants each, stored as a 20 x 20 grid and seeded by 380 random draws.

Both animations run the same code:

- A grid of integers. Each cell is 1 (live), -1 (has just died), -2 (has
  faded) or 0 (empty). The two dead sub-states let a dead cell fade out
  over two generations.
- A generation step, `updateCells`. It counts the live neighbours of every
  cell with eight probes. Probes outside the grid find nothing; there is no
  wraparound, not even around the circle graph's rings. It then applies the
  B3/S23 rule with the fade-out states and builds a new grid from the old
  one only.
- A stale test. When the new grid equals the old one cell for cell, the
  animation sets `endState` and stops. Otherwise the new grid replaces the
  old one.
- A frame gate, `update`. It runs a generation only while `endState` is
  unset and only when the frame timer says a generation is due.

Modules:

- `LifeRule`: the per-cell rule `NextValue` and its characterisation.
- `LifeGrid`: the grid as a value.
  - The bounded Moore neighbourhood and the live-neighbour `Count`. `Count`
    is proved equal to the size of the set of live neighbours.
  - The whole next generation, `NextGrid`.
  - Seeding, `Seeded`.
  - Lemmas on these: stale grids, the block still life, the fade sequence
    of a lone cell, and seeding's independence of order and repetition.
- `LifeWorld`: the imperative part.
  - `CountNeighbours` and `NextGeneration` are the nested loops of
    `updateCells`, proved to compute `NextGrid`.
  - Class `World` holds `cellGrid` and `endState`. Its methods are
    initialisation, seeding, `UpdateCells` and `Update`.
- `Traditional` and `CircleGraph`: each animation's constants, its seed and
  its starting state. `CircleGraph` also covers the circle graph's own probe
  order and the absence of angular wraparound.

## Model

| member | source | states |
|---|---|---|
| LifeRule.NextValue | js/game-of-life-traditional.js:126-140 | the next value of a cell, whatever its current value, is one of the four cell values |
| LifeRule.LiveIffB3S23 | js/game-of-life-traditional.js:120-140 | a cell is live next generation exactly when it has 3 live neighbours, or it is live and has 2 (both directions) |
| LifeRule.DeadSubStates | js/game-of-life-traditional.js:126-140 | dying exactly when it was live and had neither 2 nor 3; faded exactly when it was dying and had not 3; empty exactly when it was neither live nor dying and had not 3 |
| LifeRule.FixedValuesAreLiveOrEmpty | js/game-of-life-traditional.js:126-140 | a cell value the rule maps to itself is live or empty: a dying or faded cell always changes |
| LifeGrid.Blank | js/game-of-life-traditional.js:26-33 | the initial grid has the given rows and columns, all cells 0 |
| LifeGrid.WindowIsMoore | js/game-of-life-traditional.js:109-118 | the eight probed offsets are exactly the positions one step away in each direction, the cell itself excluded |
| LifeGrid.CountIsLiveNeighbours | js/game-of-life-traditional.js:109-118 | the probe-by-probe count equals the number of distinct live neighbours inside the grid |
| LifeGrid.NeighboursByProbes | js/game-of-life-traditional.js:109-118 | the number of neighbours inside the grid is the number of the eight probes that land inside it |
| LifeGrid.CountBounds | js/game-of-life-traditional.js:109-118 | the live neighbours are neighbours inside the grid, so the count is at most their number, at most 8 |
| LifeGrid.CornerNeighbours | js/game-of-life-traditional.js:111-118 | without wraparound a corner cell has 3 neighbours, so a count of at most 3 |
| LifeGrid.EdgeNeighbours | js/game-of-life-traditional.js:111-118 | a cell on exactly one border has 5 neighbours, so a count of at most 5 |
| LifeGrid.InteriorNeighbours | js/game-of-life-traditional.js:111-118 | a cell on no border has all 8 neighbours |
| LifeGrid.OnlyLiveCellsCount | js/game-of-life-traditional.js:111-118 | only cells equal to 1 are counted: grids that agree on their live cells have the same live neighbours and counts, whatever their -1, -2 and 0 cells |
| LifeGrid.NextGridAt | js/game-of-life-traditional.js:103-140 | each cell of the next generation is the rule applied to that cell's old value and its count in the old grid |
| LifeGrid.NextGridShape | js/game-of-life-traditional.js:103-144 | a generation keeps the grid's rows and columns and yields only cell values |
| LifeGrid.StaleGridHasNoDeadStates | js/game-of-life-traditional.js:146-150 | a grid that a generation leaves unchanged has only live and empty cells |
| LifeGrid.BlockCount | js/game-of-life-traditional.js:109-118 | around a lone 2 x 2 block, each block cell has 3 live neighbours and every other cell at most 2 |
| LifeGrid.BlockIsStill | js/game-of-life-traditional.js:99-150 | a lone 2 x 2 block is a fixed point of a generation, so the stale test fires on it |
| LifeGrid.AtMostOneNeighbour | js/game-of-life-traditional.js:109-118 | with at most one live cell, no position has more than one live neighbour |
| LifeGrid.NoLiveNoCount | js/game-of-life-traditional.js:109-118 | with no live cell, every count is 0 |
| LifeGrid.LonelyLiveDies | js/game-of-life-traditional.js:126-133 | an isolated live cell becomes -1, and all other cells stay empty |
| LifeGrid.LonelyDyingFades | js/game-of-life-traditional.js:134-140 | an isolated -1 cell becomes -2, and all other cells stay empty |
| LifeGrid.FadedClears | js/game-of-life-traditional.js:134-140 | a grid whose only non-empty cell is -2, or that has none, becomes all 0 |
| LifeGrid.FadeSequence | js/game-of-life-traditional.js:99-144 | an isolated live cell goes live, -1, -2, then the grid is all 0, which later generations keep |
| LifeGrid.Mark | js/game-of-life-traditional.js:64 | setting one seed cell keeps the grid's shape, makes that cell 1 and leaves every other cell as it was |
| LifeGrid.Seeded | js/game-of-life-traditional.js:63-65 | seeding a list of in-range positions keeps the grid's shape |
| LifeGrid.SeededAt | js/game-of-life-traditional.js:63-65 | after seeding, a cell is 1 if its position was listed and unchanged otherwise |
| LifeGrid.SeedingIgnoresOrderAndRepeats | js/game-of-life-traditional.js:63-65 | two lists with the same positions, in any order and with any repeats, seed the same grid |
| LifeGrid.SeededBlank | js/game-of-life-traditional.js:26-65 | seeding an empty grid keeps its dimensions and makes exactly the listed cells 1 |
| LifeGrid.RepeatedSeedChangesNothing | js/game-of-life-traditional.js:63-65 | listing a position once more changes nothing |
| LifeGrid.ListedAtMostLength | js/game-of-life-circle-graph.js:41-45 | a list of draws has no more distinct positions than entries |
| LifeGrid.SeededBlankLiveCells | js/game-of-life-circle-graph.js:30-45 | after seeding an empty grid, the live cells are exactly the listed positions, so there are at most as many as draws |
| LifeWorld.CountNeighbours | js/game-of-life-traditional.js:109-118 | the eight probes, in the rectangular animation's order, compute the live-neighbour count `Count`, which `CountIsLiveNeighbours` proves is the number of live neighbours inside the grid |
| LifeWorld.NextGeneration | js/game-of-life-traditional.js:99-144 | the nested loops build exactly the next generation: every cell by the rule, from the old grid only (the circle graph's lines 79-123 are the same loops) |
| LifeWorld.World.constructor | js/game-of-life-traditional.js:26-33 | the grid is built with `rows` rows of `cols` zeros, and `endState` is unset |
| LifeWorld.World.Seed | js/game-of-life-traditional.js:63-65 | each listed cell is set to 1 in turn: the new grid is the seeded old grid, and `endState` is untouched |
| LifeWorld.World.UpdateCells | js/game-of-life-traditional.js:99-154 | if the next generation equals the grid, the grid is kept, `endState` is set, and the grid has only live and empty cells; otherwise the grid becomes the next generation and `endState` is untouched (the same in the circle graph, lines 79-133) |
| LifeWorld.World.Update | js/game-of-life-traditional.js:83-96 | once `endState` is set, or while no generation is due, nothing changes; otherwise one generation runs with the outcomes above; `endState` is never unset (the same in the circle graph, lines 63-76) |
| Traditional.EmptyGrid | js/game-of-life-traditional.js:26-33 | the initial grid is 30 x 30 |
| Traditional.SeedCellsInRange | js/game-of-life-traditional.js:36-62 | all 22 seed positions lie inside the 30 x 30 grid |
| Traditional.NewGame | js/game-of-life-traditional.js:22-65 | a fresh valid state: the empty 30 x 30 grid seeded with the fixed pattern, `endState` unset |
| Traditional.StartingGrid | js/game-of-life-traditional.js:26-65 | the starting grid is 30 x 30, 1 exactly at the seed positions and 0 elsewhere; repeating any seed changes nothing |
| CircleGraph.EmptyGrid | js/game-of-life-circle-graph.js:30-37 | the initial grid has 20 rings of 20 quadrants |
| CircleGraph.DrawsInRange | js/game-of-life-circle-graph.js:40-45 | every draw lands inside the grid |
| CircleGraph.NewGame | js/game-of-life-circle-graph.js:23-45 | a fresh valid state: the empty grid seeded with the 380 draws, `endState` unset |
| CircleGraph.StartingGrid | js/game-of-life-circle-graph.js:30-45 | the starting grid is 1 exactly at the drawn positions and 0 elsewhere, and has at most 380 live cells |
| CircleGraph.ProbeCount | js/game-of-life-circle-graph.js:89-97 | the circle graph's probe order gives the same count as the rectangular order: the number of live neighbours |
| CircleGraph.NoAngularWraparound | js/game-of-life-circle-graph.js:89-97 | the first and last quadrant of a ring are not neighbours; such a cell has at most 5 neighbours, and 3 on the innermost and outermost rings |

## Left out

- Drawing is not modelled: `genLifeGrid`, `genLifeGraph`, Phaser, colours, canvas sizes and the circle graph's trigonometry.
- LifeWorld.World.Update: the frame timer (`timeElapsed`, `physicsElapsed`, `FRAME_RATE_PER_MINUTE`) is replaced by the boolean parameter `due`, which says whether the accumulated time has passed the frame interval.
- CircleGraph.NewGame: the `Math.random` draws are a parameter. The method asks for exactly 380 of them, each inside the range the source draws from.
- The "Ending animation." console message is not modelled.
- LifeWorld.World.UpdateCells: the source compares the two grids' `toString` texts. The model compares the grids as values. The two agree because both grids always have the same shape (`NextGridShape`) and distinct integers print differently. That equivalence of texts is argued here, not proved.
- LifeWorld.World.Seed: requires every position to be inside the grid. In the source, a row outside the grid would throw. A column at or beyond the row's length would silently lengthen that row. A column of -1 would add a property named "-1" that the row's length ignores. The probes of the first generation at column 0 of rows x - 1, x and x + 1 would read it as live. A column below -1 would add a property that nothing reads. Neither animation can produce such a position (`SeedCellsInRange`, `DrawsInRange`).
- Both seeds index rows with the coordinate drawn from the width (or from the number of quadrants) and cells with the one drawn from the height (or from the number of rings). The circle graph's draws can take any value below each bound, so only its square grid makes every possible draw fit (`DrawsInRange`). The rectangular animation's literal seeds have first coordinates 2 to 28 and second coordinates 10 to 20, and they fit the 30 x 30 grid (`SeedCellsInRange`). The model uses the source's index order.
- LifeWorld.NextGeneration: probes in the rectangular animation's order. The circle graph's order is modelled by `CircleGraph.ProbeCount`, which is proved to give the same count.
- The model does not detect oscillators or other cycles, and neither does the source. Only a generation that changes nothing sets `endState`.
- Cell values and counts are small integers, so there is no overflow to model.
- The source keeps `cellGrid`, `endState` and `timeElapsed` as globals of the page script. The model keeps the first two as fields of a `World` object.
