# Toroidal Game of Life with a fixed-rate tick gate

This project models the automaton at the heart of `basic.cpp`, a small
OpenGL program that draws Conway's Game of Life as a field of cubes. The
program keeps two `int` grids, `world` and `temp_world`, of
`WORLD_SIZE_Y × WORLD_SIZE_X` cells. It fills `world` at random and
`temp_world` with zeros. Then, on every render frame, it:

1. checks the clock: once `currentTime - lastTime >= 0.0625`, `lastTime`
   moves forward by exactly 0.0625 and `should_update` is raised;
2. when `should_update` is raised, runs one generation and lowers the flag.
   The rule pass counts each cell's eight toroidally wrapped neighbours in
   `world` and writes the next state into `temp_world` through a chain of
   `if … continue` tests. Then `temp_world` is copied back into `world`;
3. scans `world` row by row and draws a cube at every live cell.

The model has three modules:

- `Life` (life.dfy) is the pure specification. It holds the wrap
  arithmetic, the neighbour count, the rule chain as written (`Rule`,
  `Written`) beside the textbook B3/S23 rule (`LivesOn`), the next
  generation, `Evolve` (the grid after n generations) and the row-major
  live-cell enumeration.
- `Ticker` (ticker.dfy) holds the gate on `lastTime` and `should_update`
  as functions over a run of clock readings.
- `Game` (game.dfy) holds the class `Automaton`. It has the two grids as
  `array2<int>` fields, `lastTime` and `shouldUpdate`, and one method for
  each loop of `main`. Each method is proved against the `Life` and
  `Ticker` functions.

The grid size is given to the constructor as `height` and `width` (both
positive), not fixed at 100. The clock is a `real` number of seconds.
The random draws come in as a parameter. Grid dimensions of 1 are not
special-cased: the wrap arithmetic makes a cell its own neighbour, as it
does in the source.

The class invariant `Valid()` states the fact that makes the rule chain
correct: every dead cell's `temp_world` entry is 0. The chain writes
nothing for a dead cell whose count is not 3, so that cell keeps its old
scratch value. The invariant holds at start because `temp_world` is
zeroed. It holds after every step because the copy-back leaves
`temp_world` equal to `world` (`Step` ensures this). `StaleScratchResurrects`
shows that the chain would be wrong without it.

One behaviour follows the code rather than the usual description of such
a scheduler. A frame that fires does not guarantee that an immediate
second check at the same clock reading stays quiet. `lastTime` moves by one
interval only, so the gate fires again whenever two or more intervals had
passed (`Ticker.Refire`). A stall is worked off one generation per frame.

## Model

| member | source | states |
|---|---|---|
| `Life.Before` | basic.cpp:239-241 | `topY`/`leftX` lie in [0, n), equal (i − 1) mod n, and are n − 1 for i = 0 and i − 1 otherwise |
| `Life.After` | basic.cpp:240-242 | `bottomY`/`rightX` lie in [0, n), equal (i + 1) mod n, and are 0 for i = n − 1 and i + 1 otherwise |
| `Life.NeighbourCount` | basic.cpp:245-257 | the eight-term sum read from the previous grid lies in [0, 8] when every cell is 0 or 1 |
| `Life.NeighbourCountIsOffsetSum` | basic.cpp:239-257 | the count equals the sum over the table of the eight offsets (−1..1 × −1..1 without (0,0)), each wrapped around its axis |
| `Life.NextCellIsLocal` | basic.cpp:245-257 | a cell's next state depends only on the cell and its eight wrapped neighbours in the previous generation |
| `Life.RuleAgreesWithLife` | basic.cpp:261-282 | on 0/1 cells the `if … continue` chain writes exactly the B3/S23 outcome; it writes nothing exactly for a dead cell whose count is not 3, and B3/S23 keeps that cell dead |
| `Life.RuleCases` | basic.cpp:261-282 | a live cell with 0 or 1 neighbours gets 0, with 2 or 3 gets 1, with 4 or more gets 0; a dead cell with 3 gets 1 and with any other count gets no write |
| `Life.WrittenIsLife` | basic.cpp:261-282 | the scratch entry after the chain is the B3/S23 outcome, provided a dead cell's scratch entry was 0 beforehand |
| `Life.StaleScratchResurrects` | basic.cpp:279-282 | without that proviso the chain is wrong: a stale 1 under an isolated dead cell stays 1 |
| `Life.NextCell` | basic.cpp:230-282 | a cell's next state is always 0 or 1 |
| `Life.NextGeneration` | basic.cpp:226-285 | the next generation has the same shape, holds only 0/1, and each cell is computed from the previous grid alone |
| `Life.Evolve` | basic.cpp:218-297 | every generation after the first keeps the grid's shape and holds only 0/1 |
| `Life.Seeded` | basic.cpp:151-156 | the initial grid has the draws' shape, holds only 0/1, and a cell is alive exactly when its draw is even |
| `Life.RowLiveSound` | basic.cpp:300-301 | every entry the scan of one row yields is a live cell of that row in the columns scanned, in strictly increasing column order |
| `Life.RowLiveHas` | basic.cpp:300-301 | every live cell of the row in the columns scanned is yielded by the scan |
| `Life.LiveRowsSound` | basic.cpp:299-301 | every entry the scan of the first rows yields is a live cell of those rows, in strictly increasing row-major order |
| `Life.LiveRowsHas` | basic.cpp:299-301 | every live cell of the first rows is yielded by their scan |
| `Life.LiveCoordsExact` | basic.cpp:299-301 | the full scan yields every live cell and no dead cell, each exactly once, in row-major order |
| `Life.CornerSeesOppositeCorner` | basic.cpp:239-257 | on a 5×5 grid whose only live cell is (4,4), the count at (0,0) is 1 |
| `Life.SingleCellTorus` | basic.cpp:239-282 | on a 1×1 grid the lone live cell is its own eight neighbours (count 8) and dies |
| `Life.BlinkerFlips` | basic.cpp:226-293 | a horizontal blinker in a 5×5 grid becomes the vertical blinker after one generation |
| `Ticker.ScheduleIsLinear` | basic.cpp:165-169 | after n steps from a start time, `lastTime` is the start time plus n intervals |
| `Ticker.ScheduleShift` | basic.cpp:165-169 | a step taken first and n later ones move `lastTime` as far as n + 1 steps from the original start |
| `Ticker.Poll` | basic.cpp:165-171 | the flag is raised exactly when at least one interval has passed; `lastTime` then moves by exactly one interval and not past the clock, and otherwise stays |
| `Ticker.Frame` | basic.cpp:165-295 | a frame steps exactly when at least one interval has passed, and `lastTime` moves by one interval exactly when it steps |
| `Ticker.RunAccounting` | basic.cpp:160-297 | over any run of frames there are at most as many steps as frames, and the final `lastTime` is the start advanced by exactly one interval per step taken (no batching) |
| `Ticker.RunNeverAhead` | basic.cpp:145-171 | with a non-decreasing clock that started at `lastTime`, `lastTime` never passes the latest clock reading |
| `Ticker.Refire` | basic.cpp:165-171 | after a frame fires, a second frame at the same clock reading fires again exactly when two or more intervals had passed |
| `Ticker.GateExample` | basic.cpp:165-171 | starting from 0: no step at 1/32 s, a step at 1/16 s that sets `lastTime` to 1/16, no step at 3/32 s |
| `Game.Automaton.constructor` | basic.cpp:145-158 | the grids are freshly allocated and of the given size, `world` is the seeded grid, `temp_world` is all zero, `lastTime` is the start time, the flag is down, and the invariants hold |
| `Game.Automaton.Seed` | basic.cpp:151-156 | the initialisation loop leaves `world` equal to the seeded grid and `temp_world` all zero |
| `Game.Automaton.Tick` | basic.cpp:163-171 | the gate variables change exactly as `Ticker.Poll` says |
| `Game.Automaton.RuleAt` | basic.cpp:230-282 | for any prior scratch entry, the count and the chain leave in the cell's `temp_world` entry exactly what `Life.Written` says of that entry: a stale value under a dead cell whose count is not 3 survives, as `Life.StaleScratchResurrects` shows; when a dead cell's prior entry is 0 the entry is the cell's next state; no other entry changes |
| `Game.Automaton.RulePass` | basic.cpp:226-285 | the nested rule loop leaves the whole next generation in `temp_world` and does not touch `world` |
| `Game.Automaton.CopyBack` | basic.cpp:288-293 | the copy loop makes `world` equal to `temp_world` cell for cell |
| `Game.Automaton.Step` | basic.cpp:226-293 | `world` becomes the next generation of the old `world`, `temp_world` ends equal to `world`, and the invariants hold again |
| `Game.Automaton.LiveCells` | basic.cpp:299-301 | the scan of `world` returns the row-major enumeration `LiveCoords` of the current generation, which `Life.LiveCoordsExact` shows holds every live cell, no dead cell, each once, in order |
| `Game.Automaton.Advance` | basic.cpp:218-297 | the flag-up block runs one generation and lowers the flag; the generation counter goes up by one and the grid stays the seeded grid evolved that many times |
| `Game.Automaton.Frame` | basic.cpp:163-316 | one loop iteration takes at most one step, exactly when the gate fires. The flag is down afterwards. `world` is the seeded grid advanced once per step, `lastTime` is the start time plus one interval per step, and the live cells returned are those of the new `world` |
| `Game.Automaton.RenderLoop` | basic.cpp:160-351 | over a run of frames, `lastTime` and the number of generations taken are exactly those of `Ticker.Run` on the same clock readings, the pacing invariants hold, and the last frame returns the live cells of the current `world` |
| `Game.Run` | basic.cpp:145-351 | seeding and then the render loop yield a fresh automaton with fresh grids of the given size whose invariants hold, so `world` holds the seeded grid evolved once per gate firing; `lastTime` and the step count are those of `Ticker.Run` from the start time |

## Left out

- Window and context creation, input modes, and the escape/close condition
  of the render loop (basic.cpp:29-69, 349-351): these are I/O through GLFW
  and GLEW. The loop instead runs once per clock reading in a given
  non-empty sequence, as the `do … while` body runs at least once.
- Shader, texture and mesh loading, VBO indexing and upload, per-frame GL
  state, camera matrices, the model matrix at `(j * 2, i * 2, 0)` and the
  draw call (basic.cpp:72-142, 174-215, 304-312, 341-347, 353-363). These
  are foreign calls and floating-point matrix work. The model ends at the
  list of live coordinates that the drawing consumes.
- `rand()` at basic.cpp:153: the draws are a constructor parameter, and
  only their parity is used, as in the source.
- `glfwGetTime()` and `double` arithmetic: clock readings are exact reals
  passed to `Frame` and `Tick`, so rounding of the repeated `+= 0.0625` is
  not modelled.
- `isOneAlive` (basic.cpp:224, 232-234), the commented-out early exit
  (basic.cpp:321-323), the commented-out draw loop (basic.cpp:328-339) and
  `nbFrames` (basic.cpp:146, 164): none of them affects the automaton.
- 32-bit `int` overflow: cells stay 0 or 1 and counts stay within 0..8, so
  no `int` in the modelled code can overflow.
- The separate "uninitialised" state: an `Automaton` can only be obtained
  from its constructor, which runs the initialisation loop, so a step before
  initialisation cannot be written.
- Structure: the per-cell body, the rule loop, the copy loop and the
  initialisation loop and the flag-up block are separate methods (`RuleAt`,
  `RulePass`, `CopyBack`, `Seed`, `Advance`), where the source writes them inline in `main`.
  `continue` in the rule chain becomes `return` from `RuleAt`.
  `should_update` is a `bool` rather than an `int` holding 0 or 1.
