# Conway's Game of Life engine, modelled in Dafny

This project models the cellular-automaton engine of the Unity component
`GameOfLife` (`Assets/GameOfLife.cs`): one generation of Conway's Game of Life,
rule B3/S23, on an unbounded integer grid held as a sparse set of alive cells.

- A cell is the pair `(x, y)`; the source's `Vector3Int` always has z = 0.
- The tilemap `currentState` is a second `set<Cell>`. Its `HasTile` test is set membership.
- `aliveCells` and `cellsToCheck` are sets too.

The model has five modules.

- `Grid` (`grid.dfy`): cells, the 3x3 and 8-neighbour offset lists in the
  source's loop order, Chebyshev distance, and the cells of a pattern.
- `Life` (`life.dfy`): the functional specification.
  - `CountNeighbors` is a sum of membership tests over the 8 offsets.
  - `Candidates` is every alive cell together with its 8 neighbours.
  - `Apply` is the per-candidate `if / else if` of the rule pass.
  - `Step` is the next generation, evaluated sparsely.
  - `SparsePass` is what the rule pass produces when it reads a tilemap that may differ from the alive set.
- `Engine` (`engine.dfy`): the source's loops as methods, each proved equal to
  its functional counterpart: `SetPattern`, `CountNeighbors`, the candidate
  loop, the in-place rule pass, the tilemap rebuild, and `UpdateState`.
  Iterating over a hash set is modelled as an arbitrary choice (`:|`), so
  every result holds for every iteration order.
- `GameOfLife` (`board.dfy`): the component's state, covering start-up, a
  click, one iteration of the `Simulate` coroutine, Escape, and one frame of
  `Update`. `Valid` says that the tilemap shows exactly the alive set and
  that, before the run starts, the alive set is the pattern. The corrected
  `Update` keeps it; as written, a Space press while the left mouse is held
  breaks it (see "## Findings").
  `SimulateIteration` runs one iteration through the `Engine` methods and is
  proved equal to `Tick`.
- `Patterns` (`patterns.dfy`): the block is a still life, the blinker has
  period 2, and the glider is moved by (1, 1) after four generations.

The central argument is in `Life.StepIsPlaneRule` and `Engine.UpdateState`:

- Sparse evaluation over the candidates equals applying B3/S23 to every cell of the plane.
- The in-place edits of the alive set are safe because every count and every
  liveness test reads the tilemap, which still shows the previous generation.

Where the code and a plain reading of its purpose differ, the model follows the code:

- `SetPattern` does not clear `aliveCells` first. It only adds the pattern cells to it.
- `SetPattern` does not update `population`. The population is 0 until the first step.
- Escape clears the pattern and both sets, and zeroes `generation` and `population`. It leaves `time` unchanged.

## Model

| member | source | states |
|---|---|---|
| `Grid.OffsetsExact` | Assets/GameOfLife.cs:184-192 | the offsets the neighbour loop tests are exactly those at Chebyshev length 1, each once (the centre is skipped) |
| `Grid.SquareExact` | Assets/GameOfLife.cs:149-154 | the offsets the candidate loop adds are exactly those at Chebyshev length at most 1, each once |
| `Grid.NeighborSetExact` | Assets/GameOfLife.cs:184-192 | the cells the neighbour loop looks at around `c` are exactly the cells at Chebyshev distance 1; `c` is never among them |
| `Grid.BlockExact` | Assets/GameOfLife.cs:149-154 | the cells added for an alive cell are exactly its 3x3 block |
| `Grid.CellsSize` | Assets/GameOfLife.cs:113-118 | repeated pattern entries collapse: a pattern has at most as many distinct cells as entries |
| `Life.CountOver` | Assets/GameOfLife.cs:184-199 | a count over a list of offsets never exceeds the number of offsets |
| `Life.CountNeighbors` | Assets/GameOfLife.cs:181-200 | the neighbour count lies in 0..8 |
| `Life.CountOverIsCardinality` | Assets/GameOfLife.cs:184-199 | summing one membership test per distinct offset gives the number of alive cells among those positions |
| `Life.CountNeighborsExact` | Assets/GameOfLife.cs:181-200 | the count is the number of alive cells at Chebyshev distance 1; whether `c` itself is alive never changes its own count |
| `Life.CountNeighborsUnrolled` | Assets/GameOfLife.cs:184-199 | the count is the eight membership tests in the loop's order |
| `Life.CandidatesExact` | Assets/GameOfLife.cs:145-156 | a cell is a candidate iff some alive cell is within Chebyshev distance 1, so no cell farther from every alive cell is examined |
| `Life.CandidatesCover` | Assets/GameOfLife.cs:145-156 | every alive cell and all 8 of its neighbours are candidates |
| `Life.CandidatesInsert` | Assets/GameOfLife.cs:147-155 | one more alive cell adds exactly its 3x3 block to the candidates |
| `Life.FarCellIsDeadAndAlone` | Assets/GameOfLife.cs:145-171 | a non-candidate is dead and has 0 alive neighbours, so the rule could not give it birth |
| `Life.Apply` | Assets/GameOfLife.cs:163-170 | when tilemap and alive set agree on a cell, the decision is B3/S23 (birth on 3, survival on 2 or 3); a cell's membership only ever changes towards B3/S23's verdict |
| `Life.StepIsPlaneRule` | Assets/GameOfLife.cs:145-171 | for every cell of the unbounded plane, it is in the next generation iff B3/S23 holds of its state and count |
| `Life.StepEmpty` | Assets/GameOfLife.cs:145-156 | an empty board has no candidates and an empty next generation |
| `Life.Candidates` | Assets/GameOfLife.cs:145-156 | computes every alive cell shifted by each of the nine offsets of the 3x3 block (`Life.CandidatesExact` characterises it) |
| `Life.SparsePass` | Assets/GameOfLife.cs:158-171 | computes the alive set left by the in-place pass: each candidate decided by `Apply` on its tilemap state and count and its prior membership; when the tilemap shows exactly the alive set, this is `Step` |
| `Life.UndrawnCellSurvives` | Assets/GameOfLife.cs:158-171 | a cell in the alive set but not on the tilemap is in the pass's result whatever its neighbours, because the pass reads it as dead and either gives it birth or leaves it alone |
| `Engine.SetPattern` | Assets/GameOfLife.cs:109-119 | the tilemap ends up showing exactly the pattern's cells, at most one per entry; the alive set becomes the old alive set plus those cells |
| `Engine.CountNeighbors` | Assets/GameOfLife.cs:181-205 | the nested loop with its `continue` returns the specified count, which is the number of alive tiles at Chebyshev distance 1, in 0..8 |
| `Engine.AddBlock` | Assets/GameOfLife.cs:149-154 | the nested offset loops add exactly the 3x3 block around the cell to the set |
| `Engine.CollectCandidates` | Assets/GameOfLife.cs:145-156 | the loop over alive cells and offsets collects exactly the candidate set, whatever the iteration order |
| `Engine.RulePass` | Assets/GameOfLife.cs:158-171 | each candidate ends up decided by `Apply` on the tilemap's state and count and its own prior membership; other cells keep their membership; the result is the same for every iteration order |
| `Engine.RebuildTiles` | Assets/GameOfLife.cs:173-177 | after clearing and re-setting tiles, the tilemap shows exactly the alive set |
| `Engine.UpdateState` | Assets/GameOfLife.cs:143-179 | the candidates are those of the old alive set; the new alive set is the in-place pass's result, and the tilemap equals it; if the tilemap showed the alive set on entry, the result is `Step` |
| `GameOfLife.SetPattern` | Assets/GameOfLife.cs:109-119 | every pattern entry is shown and only pattern entries are shown; the alive set gains exactly the shown cells; the counters are untouched |
| `GameOfLife.Init` | Assets/GameOfLife.cs:29-38 | start-up (`Awake` then `Start`) discards tiles painted beforehand and shows exactly the pattern, which is the alive set; the board is valid, not running, and both counters and `time` are 0 |
| `GameOfLife.Click` | Assets/GameOfLife.cs:49-57 | appends the pointer cell to the pattern and re-runs `SetPattern`: the tilemap shows the old pattern's cells plus the clicked cell, the alive set gains them, and the counters and run flag are untouched |
| `GameOfLife.ClickAddsCell` | Assets/GameOfLife.cs:49-57 | before the run, a click adds exactly the clicked cell and keeps the board valid; clicking a cell already alive changes no cell; the population is untouched |
| `GameOfLife.Tick` | Assets/GameOfLife.cs:128-132 | one coroutine iteration: on a valid board the alive set becomes `Step` of it; the tilemap equals the new alive set, the candidates are those of the old one, the population is the new size, the generation grows by exactly 1 and the time by the interval; a valid running board stays valid |
| `GameOfLife.SimulateIteration` | Assets/GameOfLife.cs:126-132 | running `Engine.UpdateState` and then updating population, generation and time gives exactly `Tick` |
| `GameOfLife.Start` | Assets/GameOfLife.cs:121-134 | Space runs the coroutine to its first `yield`: the run flag is set, the generation grows by 1, and a valid board becomes a valid board holding `Step` of it |
| `GameOfLife.Simulate` | Assets/GameOfLife.cs:121-136 | after `n` iterations the board holds `n` generations of the starting one; the generation counter grew by `n`; the population is the board's size |
| `GameOfLife.Reset` | Assets/GameOfLife.cs:60-69 | Escape empties the tilemap, alive set, candidates and pattern, zeroes generation and population, and stops the run; the board is valid; `time` and the interval are kept |
| `GameOfLife.ResetClears` | Assets/GameOfLife.cs:60-69 | starting again after Escape gives an empty board with population 0 at generation 1 |
| `GameOfLife.UpdateAsWritten` | Assets/GameOfLife.cs:41-69 | one frame as written: a running board is untouched unless Escape is pressed; Escape leaves a valid empty stopped board; before the run, a click without Space is `Click` |
| `GameOfLife.Update` | Assets/GameOfLife.cs:41-69 | the corrected frame differs from the as-written one only when Space is pressed while the left mouse is held before the run; then it is just `Start`; a running board is untouched unless Escape is pressed, and Escape leaves a valid empty stopped board |
| `GameOfLife.UpdateKeepsValid` | Assets/GameOfLife.cs:41-69 | with the click refused once Space has started the run, every frame keeps the tilemap equal to the alive set |
| `GameOfLife.TrominoBirth` | Assets/GameOfLife.cs:163-166 | the L-tromino gives birth to the cell that completes its 2x2 square |
| `GameOfLife.UpdateAsWrittenBreaksValid` | Assets/GameOfLife.cs:43-58 | a frame with Space pressed while the left mouse is held leaves a born cell in the alive set that the tilemap does not show |
| `GameOfLife.UpdateAsWrittenCorruptsBlinker` | Assets/GameOfLife.cs:43-58 | on the vertical blinker the same frame also corrupts the next generation: as written it keeps (0, 1) and drops (1, 0), repeating the horizontal phase, while the corrected frame returns to the vertical blinker |
| `Patterns.BlockIsStill` | Assets/GameOfLife.cs:145-200 | the 2x2 block is unchanged by a step |
| `Patterns.BlinkerPeriodTwo` | Assets/GameOfLife.cs:145-200 | the vertical blinker turns horizontal after one step and returns after two |
| `Patterns.GliderTranslates` | Assets/GameOfLife.cs:145-200 | four steps move the starting glider by (1, 1) |

## Left out

- Rendering is not modelled: `SetTile`, `ClearAllTiles` and `aliveTile` become set operations on the tilemap set.
- Camera panning and zoom, the right-click `show` toggle and the `OnGUI` label are not modelled. They are display only.
- The conversion of the mouse position to a cell, with its float-to-int cast, is not modelled. A click arrives as an already computed cell.
- Coroutine pacing (`WaitForSeconds`) is not modelled. A resumption of the coroutine is one `Tick`.
- The `while (enabled)` condition of `Simulate` is not modelled. The component is taken to stay enabled.
- Unity runs `StartCoroutine` up to the coroutine's first `yield`. `Start` models this as setting the flag followed by one `Tick`.
- `time` and `updateInterval` are Dafny `real`s. Single-precision rounding of the running sum is not modelled.
- Coordinates and counters are unbounded integers. 32-bit overflow of `Vector3Int` components, `generation` and `population` is not modelled.
- `Assets/Pattern.cs` holds a list of cells and no logic. It is not part of this model.
- These members are proof steps and have no rows: the `Patterns.*Cell`, `*Rule`, `*Bounds` and `*Turns` lemmas, `Patterns.StepByBox`, `Patterns.CandidateInBox`, `Patterns.BlockOutsideNotBorn`, `Patterns.BlockInsideSurvives`, `Patterns.GliderMoved`, `Grid.ImagePrefix`, `Grid.ImageFresh`, `Life.CountOverPrefix`, `GameOfLife.ReshownBlinkerPass` and `GameOfLife.BlinkerFrame`.
- `Patterns.GliderTranslates` is about the one glider it names. That `Step` commutes with translation is not proved, so nothing is claimed about later periods.

## Findings

| source | as written | input that shows it | evidently intended | confidence | as-written member | corrected member |
|---|---|---|---|---|---|---|
| Assets/GameOfLife.cs:43-58 | `!isCoroutineRunning` is read once per frame, before Space is handled. Space starts the coroutine, which computes the first generation at once. The click branch under the same test then appends the pointer cell and re-runs `SetPattern`. That re-shows the old pattern on the tilemap, while `aliveCells` keeps the new generation as well. | The pattern is the L-tromino (0,0), (1,0), (0,1). In one frame Space is pressed while the left mouse is held over (10,10). Cell (1,1) is born into `aliveCells` but is not on the tilemap. Later generations read that tilemap: a cell in `aliveCells` that is not drawn is never removed. With the vertical blinker (1,0), (1,1), (1,2) and the same frame, the next step keeps (0,1) and drops (1,0), so the horizontal phase repeats. | Cells can be placed only while the simulation is not running, so the tilemap always shows `aliveCells`. | medium; not executed | `GameOfLife.UpdateAsWritten`, shown by `GameOfLife.UpdateAsWrittenBreaksValid` and `GameOfLife.UpdateAsWrittenCorruptsBlinker` | `GameOfLife.Update`, proved by `GameOfLife.UpdateKeepsValid` |
