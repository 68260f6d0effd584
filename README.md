# Game of Life engine — a verified Dafny model

This project models the simulation core of a browser Game of Life: the `Cell` object of
`js/cell.js` and the `World` object of `js/world.js`. It covers:

- creating, seeding and censusing a `rows x cols` grid of cells;
- the B3/S23 rule as `applyRules` writes it;
- one generation (`update`);
- the row-major list of live cells with pixel centres that `createSVGData` hands to the renderer;
- the running flag that `run` and `halt` maintain.

It is split into three modules:

- `Cells` (`cell.dfy`):
  - `CellState` is the value of one cell;
  - pure transition functions (`Spawned`, `Killed`, `Incremented`, `Toggled`);
  - the class `Cell`, whose methods update its two fields in place and are proved against those functions.
- `Life` (`life.dfy`): the value-level meaning of a world.
  - A `Board` is a `seq<seq<CellState>>`.
  - `Neighbors` is the bounded Moore count with hard edges.
  - `Rule` is the per-cell rule, branch by branch.
  - `Census` and `Step` are the census and one simultaneous generation.
  - `LiveCells` is the row-major snapshot.
  - Lemmas cover the rule, locality, the all-dead grid, the block and the blinker.
- `Worlds` (`world.dfy`): the class `World`.
  - Its `grid` is a `seq<seq<Cell>>` of distinct cell objects.
  - Its ghost `Board()` reads the cells' states.
  - Every method of `world.js` in the core is a method with the source's loops.
  - Each method is proved against the `Life` functions: `Update` ends in `Step(old(Board()))`, `GetWorldData` returns `Census(Board())`, `CreateSVGData` returns the drawing entries of `LiveCells(Board())`.

Where the program's own comments and its code disagree, the model follows the code:

- **Dead cells age.** The `else` branch of `applyRules` (`js/world.js:221-224`) is commented "Survives, increment lifespan" (`js/world.js:222`), but it runs for every cell that is neither killed nor born, and that includes a dead cell that stays dead, whose lifespan is incremented too. `Life.Rule` does the same. `Life.AllDeadStaysDead` proves that an all-dead grid stays dead while every cell's lifespan grows by one.
- **Negative dimensions.** Non-positive `rows`/`cols` are not rejected. A negative count gives an empty grid (`Worlds.Extent`), as the source's `for` loops do.

Two places where the model departs from the source's control flow:

- **Split loops.** The inner loops of `getWorldData`, `update` and `createSVGData` are separate methods: `RowCensus`, `ApplyCensus` and `RowSVGData`. Their contracts state what one pass of that loop computes.
- **Order in `run`.** `Run` sets the running flag before the generation rather than after it. The generation never reads the flag, so the two orders cannot be told apart.

## Model

| member | source | states |
|---|---|---|
| Cells.Cell.constructor | js/cell.js:5-8 | a new cell is `Fresh(alive)`: living is the argument (false when absent), lifespan 0 |
| Cells.Cell.IsAlive | js/cell.js:10-12 | returns the cell's living flag and changes nothing |
| Cells.Cell.GetLifespan | js/cell.js:14-16 | returns the cell's lifespan and changes nothing |
| Cells.Cell.IncrementLifespan | js/cell.js:18-21 | lifespan goes up by exactly one, living unchanged, the new lifespan is returned |
| Cells.Cell.ToggleLiving | js/cell.js:23-26 | living flips, lifespan unchanged, the new flag is returned |
| Cells.Cell.Kill | js/cell.js:28-31 | the cell is dead, lifespan unchanged, false is returned |
| Cells.Cell.Spawn | js/cell.js:33-38 | the cell is alive with lifespan 0 whatever it was before, true is returned |
| Cells.SpawnForgetsHistory | js/cell.js:33-38 | spawning any two states gives the same state, a fresh live cell |
| Cells.KillIdempotent | js/cell.js:28-31 | killing twice equals killing once; only the living flag changes |
| Cells.ToggleInvolution | js/cell.js:23-26 | toggling twice restores the state; toggling never touches the lifespan |
| Cells.LifespanOnlyResetBySpawn | js/cell.js:18-38 | kill and toggle keep the lifespan, increment adds one, spawn is the only transition that lowers it, and only to 0 |
| Worlds.World.constructor | js/world.js:5-17 | falsy rows, cols and radius become 50, 50 and 10; width is cols * 2 * radius, height is rows * 2 * radius; the grid is empty |
| Worlds.World.InitializeGrid | js/world.js:25-33 | the grid becomes rows x cols fresh, distinct cells, all dead with lifespan 0 (`Blank`) |
| Life.Blank | js/world.js:25-33 | the blank board has the requested shape and no live cell |
| Worlds.World.SeedGrid | js/world.js:35-53 | every cell the seeder accepts is spawned and every other one killed (`Seeded`) |
| Life.SeededLiveSet | js/world.js:44-52 | after seeding, exactly the positions the seeder accepts are alive, each with lifespan 0 |
| Worlds.World.Init | js/world.js:19-23 | init is a fresh grid seeded by the seeder |
| Worlds.World.SeedFromTupleList | js/world.js:55-63 | the points are spawned in order up to the first one outside the grid (where the source throws); the result says whether all were in range |
| Life.InRangePrefix | js/world.js:58-62 | the points before index k are in the grid and the point at k, if any, is not |
| Life.SpawnedLiveSet | js/world.js:58-62 | after spawning at a list of points, the live set is the old one plus the listed in-grid positions, each with lifespan 0 |
| Worlds.World.FindLivingNeighbors | js/world.js:196-209 | the loop's count over the 3x3 window is `Neighbors` of the current board, for any coordinates |
| Life.ScanIsNeighbors | js/world.js:199-207 | the window scan that skips the centre and out-of-grid positions equals the eight-neighbour count |
| Life.Neighbors | js/world.js:196-209 | the neighbour count is at most 8 |
| Life.NeighborsIgnoreSelf | js/world.js:201 | the count of a cell does not depend on the cell's own state |
| Life.NeighborsAtBorder | js/world.js:201 | hard edges: at most 3 neighbours in a corner, at most 5 on an edge |
| Worlds.World.GetWorldData | js/world.js:163-179 | returns `Census(Board())`, one count per cell, without changing any cell |
| Worlds.World.RowCensus | js/world.js:167-175 | one row of the census, left to right |
| Life.CensusRowFacts | js/world.js:168-175 | the row gathered column by column has one entry per column, each that column's neighbour count |
| Worlds.World.ApplyRules | js/world.js:211-225 | the cell's new state is `Rule` of its old state and the count |
| Life.RuleIsB3S23 | js/world.js:211-225 | the rule is B3/S23 on the living flag; survivors and dead cells that stay dead age by one, births start at 0, deaths keep the lifespan |
| Worlds.World.Update | js/world.js:147-161 | returns the census of the board before the call and leaves the board at `Step` of it |
| Worlds.World.ApplyCensus | js/world.js:150-155 | every cell gets the rule with its own entry of a census taken beforehand |
| Life.StepShape | js/world.js:150-155 | a generation keeps the grid's shape |
| Life.StepIsLocal | js/world.js:147-161 | a cell's next state depends only on its own state and its neighbours' flags before the step (simultaneous update) |
| Life.StepLiveSet | js/world.js:147-161 | the live set after a step is the set of positions where B3/S23 holds on the live set before it |
| Life.AllDeadStaysDead | js/world.js:221-224 | an all-dead grid stays dead, and every cell's lifespan grows by one |
| Life.AllDeadForever | js/world.js:147-161 | an all-dead grid is dead after any number of generations |
| Life.StillLifeForever | js/world.js:147-161 | a live set kept by one step on every board of the shape is kept by any number of steps |
| Life.BlockCell | js/world.js:196-225 | at every position of a board holding only a 2x2 block, the rule keeps the position as it was |
| Life.BlockIsStill | js/world.js:147-161 | a lone 2x2 block is unchanged by one generation |
| Life.BlockStaysForever | js/world.js:147-161 | a lone 2x2 block is unchanged by any number of generations |
| Life.BlinkerCellH | js/world.js:196-225 | with the horizontal blinker alive, the rule makes a position live exactly when it is in the vertical blinker |
| Life.BlinkerCellV | js/world.js:196-225 | with the vertical blinker alive, the rule makes a position live exactly when it is in the horizontal blinker |
| Life.BlinkerTurnsVertical | js/world.js:147-161 | {(1,0),(1,1),(1,2)} becomes {(0,1),(1,1),(2,1)} on any grid of at least 3x3 |
| Life.BlinkerTurnsHorizontal | js/world.js:147-161 | {(0,1),(1,1),(2,1)} becomes {(1,0),(1,1),(1,2)} again |
| Life.AlternatesForever | js/world.js:147-161 | two live sets that one step maps onto each other alternate for ever |
| Life.AlternationParity | js/world.js:147-161 | the alternation shows the first set at even generations and the second at odd ones |
| Life.BlinkerOscillates | js/world.js:147-161 | the blinker is horizontal after every even number of generations and vertical after every odd one |
| Worlds.World.CreateSVGData | js/world.js:90-120 | the entries are the drawing entries of `LiveCells(Board())`, in that order |
| Worlds.World.RowSVGData | js/world.js:98-115 | one row's entries, all at the height the outer loop has reached |
| Worlds.SvgDataRowStep | js/world.js:99-114 | one more column appends that cell's entry exactly when the cell is alive |
| Worlds.SvgDataEntries | js/world.js:95-117 | one drawing entry per live cell: as many entries as cells, entry i drawn from cell i |
| Worlds.SvgDataConcat | js/world.js:91-119 | the entries of two lists of live cells, one after the other, are the entries of their concatenation |
| Worlds.CentreClosedForm | js/world.js:96-100 | the accumulated offsets put the k-th centre at radius * (2k + 1) |
| Worlds.DatumPosition | js/world.js:106-113 | a live cell at (r, c) is drawn at x = radius * (2c + 1), y = radius * (2r + 1), with its radius and lifespan |
| Life.LiveCellsExact | js/world.js:95-117 | the snapshot lists every live cell with its lifespan, nothing else, strictly in row-major order |
| Life.LiveInRowsFacts | js/world.js:95-117 | the rows scanned so far give live cells of those rows only, in row-major order, all of them |
| Life.LiveInRowFacts | js/world.js:98-115 | the columns scanned so far give the live cells of that row only, left to right, all of them |
| Worlds.World.Run | js/world.js:182-189 | one generation (`Step`) is performed and the world is marked running |
| Worlds.World.Halt | js/world.js:191-194 | the world is no longer running; only the running flag changes, so the world stays valid |
| Worlds.World.HaltFreezes | js/world.js:182-194 | after halt, any number of timer firings leave the board as it was and the world valid and halted |
| Worlds.World.Tick | js/world.js:186-188 | the timer callback performs a generation only while the world is running, and otherwise changes nothing |

## Left out

- `setupSVG` and `draw` (`js/world.js:83-88`, `122-144`) are D3/SVG rendering with DOM side effects. `Update` therefore does not draw. `CreateSVGData` is modelled on its own.
- `printGridToConsole` and the `console.log` in `seedFromTupleList` are console output only.
- The real timer is not modelled: `setTimeout`/`clearTimeout` and the `speed` argument of `run`. The `scenario` handle is the boolean `running`, and a firing of the timer is `Tick`.
- The default random seeder built on `Math.random` is nondeterministic and uses floating point. The seeder is an arbitrary predicate parameter instead.
- The `metric` callback of `getWorldData` and `update` is a foreign callback with unknown effects.
- The string key `v` of each drawing entry is formatting for the renderer.
- `js/main.js` is not part of this model: it is UI wiring.
- Each census entry is the neighbour count itself, not an object holding it in a `livingNeighbors` field.
- Cells.Cell.constructor: the argument is a `bool`. The source stores any truthy argument as given, for example `1`, where the model stores `true`.
- Worlds.World.constructor: 0 stands for every falsy argument (undefined, null, NaN).
- Worlds.World.SeedFromTupleList: the TypeError the source throws at a point outside the grid is modelled as stopping and returning false. Non-integer coordinates are not modelled.
- Worlds.World.Run: the boolean `running` stands for the single timer handle `scenario`, so it cannot represent two pending timers. In the source, calling `run` while a timer is pending (`js/world.js:186`) leaves the earlier timer chain scheduled, and `halt` (`js/world.js:192-193`) cancels only the latest one, so the world keeps advancing. The model matches the source only when `run` is started from a halted world, as `js/main.js` does.
- Worlds.World.Update requires `Valid()`, a grid that `InitializeGrid` built: rows x cols distinct cells. The same holds for `SeedGrid`, `SeedFromTupleList`, `Run` and `Tick`. `FindLivingNeighbors`, `GetWorldData` and `CreateSVGData` require only the shape. On a grid that was never initialised the source throws a TypeError, which is not modelled.
