# Extended Game of Life: generation-transition engine

This project models the core of `GameOfLife` (package `it.polito.extgol`).
It is a Game of Life whose cells carry lifepoints, an archetype (BASIC,
HIGHLANDER, LONER, SOCIAL) and a mood (NAIVE, HEALER, VAMPIRE). Five global
events act on the cells: CATACLYSM, FAMINE, BLOOM, BLOOD_MOON and SANCTUARY.

The model has two layers. The first is a value layer of pure functions:
- `CellRules`: the per-cell rules;
- `StepSpec`: the board as a row-major sequence of cell states.

The second is a heap layer that mirrors the Java classes and updates them in
place:
- `CellModel.Cell`, `BoardModel.Board`, `GameModel.Generation`, `GameModel.Game`;
- `Engine.Evolve`, `EngineRun.Run` and `EngineRun.RunWithEvents`.

Every state-changing method is proved against the value layer: its
postcondition ties the new cell states to a function of the old ones. The
properties of those functions are proved as lemmas.

Files:
- `rules.dfy`:
  - `Cell.evolve`: the starvation pre-check, the four archetype rules and
    the pending bite;
  - `Cell.interact`: the mood transfer table;
  - the immediate and deferred event effects on one cell.
- `step_spec.dfy`: one call of `ExtendedGameOfLife.evolve` on a whole board,
  as four phases:
  1. tile modifiers;
  2. interactions, tile by tile and then neighbour by neighbour;
  3. decisions read from the post-interaction alive flags;
  4. the simultaneous commit.

  It also holds the board-wide SANCTUARY and BLOOD_MOON effects, one
  iteration of the event loop (`Iterate`) and k iterations (`RunSteps`,
  `EvolveSteps`).
- `cell.dfy`: `class Cell` with `Evolve` and `Interact`, written
  statement by statement as in `Cell.java`.
- `board.dfy`: `class Board`, which holds the tiles, the neighbour table and
  the tile modifiers, together with the counting loop of
  `countAliveNeighbors`. The Moore-8, edge-clipped neighbour table is given as
  a function and proved well formed.
- `game.dfy`: `class Generation` and `class Game`. `Game` holds the
  schedule, the two consume-once flags, `unrollEvent`, `sanctuaryEffect`,
  `bloodMoonEffects` (two passes over a set of healers), `setMoods`,
  `scheduleEvent`, `addGeneration` and `getStart`.
- `engine.dfy`: `evolve` and the two `run` methods.
- `scenarios.dfy`: small boards evaluated with the step functions:
  - a row of three cells, under simultaneous update and under a tile-by-tile
    commit;
  - a healer and a vampire firing at each other in one interaction phase.

The two HashMap and HashSet loops are modelled by picking an arbitrary
remaining element (`:|`). Their postconditions hold for every visiting order:
- the commit of `nextStates` in `evolve`;
- the healer set of `bloodMoonEffects`.

The FAMINE check in `evolve` reads the event recorded on the generation
passed to `evolve`. That generation is the one immediately preceding the
generation being built. In `run` with events, it carries the event scheduled
at that iteration, so a FAMINE at step i suppresses respawns in the step
from i to i+1 only.

## Model

| member | source | states |
|---|---|---|
| `CellModel.Cell.constructor` | GameOfLife/src/it/polito/extgol/Cell.java:120-124 | a new cell is dead, BASIC, NAIVE, with no lifepoints, no death count and no pending bite |
| `CellModel.Cell.Evolve` | GameOfLife/src/it/polito/extgol/Cell.java:159-268 | the returned decision and the new fields are exactly `Evolved` of the old state and the neighbour count |
| `CellModel.Cell.Interact` | GameOfLife/src/it/polito/extgol/Cell.java:423-457 | both cells end as `Interacted` of their old states; a null partner, or the cell itself as partner, changes nothing |
| `CellRules.EvolveKeepsAliveAndType` | GameOfLife/src/it/polito/extgol/Cell.java:159-267 | evolve never writes the cell's own alive flag or its archetype; the decision is only returned |
| `CellRules.StarvingCell` | GameOfLife/src/it/polito/extgol/Cell.java:164-258 | a live cell with negative lifepoints is dead before its archetype rule and loses one lifepoint (a HIGHLANDER also resets its death count); it comes back alive in the same call iff it has exactly 3 neighbours, and then has 0 lifepoints |
| `CellRules.BasicRule` | GameOfLife/src/it/polito/extgol/Cell.java:173-193 | BASIC: alive with more than 3 or fewer than 2 neighbours dies and loses 1; dead with 3 respawns at 0; alive with 2 or 3 survives and gains 1; dead otherwise stays dead with lifepoints unchanged |
| `CellRules.HighlanderRule` | GameOfLife/src/it/polito/extgol/Cell.java:195-222 | HIGHLANDER: a lethal count raises the death count and the cell survives while it is below 3; on reaching 3 the cell dies, loses 1 and the count resets; a normal count resets it and adds 1; a dead cell respawns only at 3, with 0 lifepoints and death count 0 |
| `CellRules.LonerSocialRule` | GameOfLife/src/it/polito/extgol/Cell.java:224-258 | LONER survives iff 1 <= n <= 3, SOCIAL iff 2 <= n <= 8; survivors gain 1, the dying lose 1; from dead both respawn iff n == 3, with 0 lifepoints; otherwise lifepoints stay |
| `CellRules.PendingBite` | GameOfLife/src/it/polito/extgol/Cell.java:262-265 | after evolve the pending-bite flag is false; a set flag has turned the mood into VAMPIRE; without it the mood is unchanged; both hold whatever the decision |
| `CellRules.HighlanderThreeLethalGenerations` | GameOfLife/src/it/polito/extgol/Cell.java:196-208 | a healthy HIGHLANDER under a lethal count survives two calls (death count 1, then 2) and dies on the third with one lifepoint less |
| `CellRules.InteractNeedsTwoLiveCells` | GameOfLife/src/it/polito/extgol/Cell.java:424-426 | when either cell is dead, interact changes neither |
| `CellRules.InteractKeepsIdentity` | GameOfLife/src/it/polito/extgol/Cell.java:428-456 | interact changes only lifepoints and the other cell's pending-bite flag: never a mood, an alive flag, an archetype or a death count |
| `CellRules.InteractTransfers` | GameOfLife/src/it/polito/extgol/Cell.java:428-456 | the full transfer table for two live cells: HEALER to NAIVE +1 to the other only; HEALER to VAMPIRE and VAMPIRE to HEALER move one lifepoint and change nothing else (no bite flag); VAMPIRE to NAIVE moves one and sets the bite flag iff the other has lifepoints >= 0; every other pair changes nothing |
| `CellRules.InteractHealerVampireConserves` | GameOfLife/src/it/polito/extgol/Cell.java:433-450 | between a healer and a vampire, either way round, the pair's lifepoint total is preserved |
| `CellRules.DeadCellIgnoresEvents` | GameOfLife/src/it/polito/extgol/Game.java:283-285 | a dead cell is left as it is by every event and arms neither flag |
| `CellRules.ImmediateEvents` | GameOfLife/src/it/polito/extgol/Game.java:286-305 | on a live cell: CATACLYSM sets lifepoints to 0, BLOOM adds 2 (alive unchanged), FAMINE takes 1 and kills iff the result is negative; BLOOD_MOON and SANCTUARY leave the cell unchanged and arm exactly their own flag |
| `BoardModel.Board.FirstEmpty` | GameOfLife/src/it/polito/extgol/ExtendedGameOfLife.java:46-48 | the first tile without a cell: every earlier tile has one |
| `BoardModel.Board.CountAliveNeighbors` | GameOfLife/src/it/polito/extgol/Cell.java:291-298 | the count is the number of neighbour tiles holding a live cell, between 0 and the number of neighbour tiles |
| `BoardModel.MooreWellFormed` | GameOfLife/src/it/polito/extgol/Cell.java:279-281 | the Moore-8, edge-clipped neighbour table of a width x height grid lists only in-grid tiles other than the tile itself, at most eight per tile |
| `StepSpec.CountAliveCongruent` | GameOfLife/src/it/polito/extgol/Cell.java:291-298 | the live-neighbour count depends only on the alive flags of the neighbour tiles |
| `StepSpec.InteractWithKeepsIdentity` | GameOfLife/src/it/polito/extgol/ExtendedGameOfLife.java:58-63 | one tile's interactions change no cell's alive flag, mood, archetype or death count |
| `StepSpec.InteractTilesKeepsIdentity` | GameOfLife/src/it/polito/extgol/ExtendedGameOfLife.java:54-64 | the same for any prefix of the tiles in row-major order |
| `StepSpec.InteractAllKeepsAlive` | GameOfLife/src/it/polito/extgol/ExtendedGameOfLife.java:54-64 | the whole interaction phase leaves every alive flag as it was |
| `StepSpec.InteractWithDeadIsIdentity` | GameOfLife/src/it/polito/extgol/ExtendedGameOfLife.java:56 | a dead cell's tile does no interaction |
| `StepSpec.InteractTilesDeadKeep` | GameOfLife/src/it/polito/extgol/ExtendedGameOfLife.java:54-64 | a cell that is dead at the start of the interaction phase ends it unchanged |
| `StepSpec.InteractWithDeadKeep` | GameOfLife/src/it/polito/extgol/ExtendedGameOfLife.java:58-63 | the same for one tile's interactions |
| `StepSpec.DecisionIsLocal` | GameOfLife/src/it/polito/extgol/ExtendedGameOfLife.java:66-81 | a tile's decision depends only on its own cell and the board's alive flags |
| `StepSpec.StepReadsStartFlags` | GameOfLife/src/it/polito/extgol/ExtendedGameOfLife.java:44-81 | simultaneous update: every cell's new alive flag is its decision (false for a dead cell under famine) on the live-neighbour count taken on the alive flags at the start of the step, not on flags moved by the modifiers, the interactions or other cells' decisions |
| `StepSpec.CountTrueCommitted` | GameOfLife/src/it/polito/extgol/ExtendedGameOfLife.java:87-91 | after the commit the number of live cells is the number of true decisions |
| `StepSpec.StepAliveCountIsTrueDecisions` | GameOfLife/src/it/polito/extgol/ExtendedGameOfLife.java:66-91 | after one step the number of live cells is the number of true decisions of the decision phase |
| `StepSpec.FamineSuppressesRespawn` | GameOfLife/src/it/polito/extgol/ExtendedGameOfLife.java:74-75 | when the generation's event is FAMINE a dead cell stays dead, and its lifepoints, mood and bite flag are only what the tile modifier made them |
| `StepSpec.BloodMoonConverts` | GameOfLife/src/it/polito/extgol/Game.java:361-389 | blood moon turns into VAMPIRE exactly the live healers next to a cell that was a live vampire before the effect; no lifepoints and no other field change |
| `StepSpec.RecordedEntries` | GameOfLife/src/it/polito/extgol/ExtendedGameOfLife.java:152-159 | after k iterations the game's schedule holds every entry of the event map at steps 0..k-1, and its earlier entries at all other steps |
| `StepSpec.FlagsConsumedEachIteration` | GameOfLife/src/it/polito/extgol/ExtendedGameOfLife.java:162-168 | both flags are down at the end of every iteration, so a flag armed at step i is consumed in step i |
| `StepSpec.EmptyScheduleIsPlainRun` | GameOfLife/src/it/polito/extgol/ExtendedGameOfLife.java:109-173 | with no scheduled events and both flags down, the run with events moves the cells exactly as the run without events |
| `StepSpec.StepOfDeadBoard` | GameOfLife/src/it/polito/extgol/ExtendedGameOfLife.java:35-97 | one step of an all-dead board leaves every cell dead, with only its tile modifier added |
| `StepSpec.IterateOfDeadBoard` | GameOfLife/src/it/polito/extgol/ExtendedGameOfLife.java:147-171 | one iteration of an all-dead board with zero modifiers keeps it dead with the same lifepoints, whatever the event |
| `StepSpec.DeadBoardStaysDead` | GameOfLife/src/it/polito/extgol/ExtendedGameOfLife.java:138-173 | the same through any number of iterations and any schedule |
| `GameModel.Generation.SnapCells` | GameOfLife/src/it/polito/extgol/ExtendedGameOfLife.java:162 | the generation's snapshot records the current alive flag and lifepoints of every cell of its board |
| `GameModel.Game.constructor` | GameOfLife/src/it/polito/extgol/Game.java:93-102 | a new game has no board yet, no generations and an empty schedule, and both flags are down |
| `GameModel.Game.AddGeneration` | GameOfLife/src/it/polito/extgol/Game.java:174-177 | the generation is appended at the end and points at this game; earlier entries are unchanged |
| `GameModel.Game.GetStart` | GameOfLife/src/it/polito/extgol/Game.java:259-261 | returns the generation at index 0 |
| `GameModel.Game.SetBloodMoonActive` | GameOfLife/src/it/polito/extgol/Game.java:334-336 | sets the blood-moon flag and nothing else |
| `GameModel.Game.SetSanctuaryActive` | GameOfLife/src/it/polito/extgol/Game.java:342-344 | sets the sanctuary flag and nothing else |
| `GameModel.Game.ScheduleEvent` | GameOfLife/src/it/polito/extgol/Game.java:435-437 | the step maps to the event, overwriting an earlier entry; every other step keeps its entry or its absence |
| `GameModel.Game.UnrollEvent` | GameOfLife/src/it/polito/extgol/Game.java:282-309 | the cell becomes `EventEffect` of its old state; a flag goes up iff it was up or the event is its own and the cell is alive |
| `GameModel.Game.SanctuaryEffect` | GameOfLife/src/it/polito/extgol/Game.java:318-332 | when the flag is up, every cell of the board takes `SanctuaryCell` (live healers +1, live vampires turn NAIVE, the rest unchanged) and the flag goes down; when it is down, or there is no generation, nothing changes |
| `GameModel.Game.BloodMoonEffects` | GameOfLife/src/it/polito/extgol/Game.java:361-389 | when the flag is up, each tile's cell takes `MoonCell` with "next to a vampire" read on the vampire flags from the start of the call, and the flag goes down; otherwise nothing changes |
| `GameModel.Game.SetMoods` | GameOfLife/src/it/polito/extgol/Game.java:409-417 | the cell on each listed tile takes the mood and every other cell is unchanged; without a board or a list nothing changes |
| `GameModel.CollectBittenHealers` | GameOfLife/src/it/polito/extgol/Game.java:368-382 | the collected set holds exactly the live healers on tiles next to a live vampire, and nothing is written |
| `GameModel.AddNeighborHealers` | GameOfLife/src/it/polito/extgol/Game.java:375-381 | scanning a live vampire's neighbours adds exactly the live healers among them |
| `GameModel.BittenByExtend` | GameOfLife/src/it/polito/extgol/Game.java:371-381 | scanning one more tile adds exactly its neighbours to the bitten tiles when it holds a live vampire, and nothing otherwise |
| `Engine.ApplyTileModifiers` | GameOfLife/src/it/polito/extgol/ExtendedGameOfLife.java:46-51 | succeeds iff every tile has a cell; every occupant then has its tile's modifier added; on failure exactly the tiles before the first empty one have |
| `Engine.InteractNeighbors` | GameOfLife/src/it/polito/extgol/ExtendedGameOfLife.java:55-63 | the board's states become `InteractWith` of the old ones: the tile's live cell interacts with each live neighbour in neighbour order |
| `Engine.InteractionPhase` | GameOfLife/src/it/polito/extgol/ExtendedGameOfLife.java:54-64 | the board's states become `InteractAll` of the old ones: tiles in row-major order |
| `Engine.DecisionPhase` | GameOfLife/src/it/polito/extgol/ExtendedGameOfLife.java:66-81 | the map holds one decision per cell, `Decided` on the states before the phase; each cell's fields are what its own evolve call wrote; no alive flag changes |
| `Engine.CommitPhase` | GameOfLife/src/it/polito/extgol/ExtendedGameOfLife.java:87-91 | every cell takes its own decision as its alive flag, and nothing else changes, in any visiting order |
| `Engine.InteractAndDecide` | GameOfLife/src/it/polito/extgol/ExtendedGameOfLife.java:54-81 | the decisions and the pre-commit cell states are `Decisions` of the interacted board |
| `Engine.CommitDecisions` | GameOfLife/src/it/polito/extgol/ExtendedGameOfLife.java:87-91 | committing those decisions yields `StepCells` of the states before the step |
| `Engine.CreateNextGeneration` | GameOfLife/src/it/polito/extgol/ExtendedGameOfLife.java:84 | a fresh generation one step later, on the same board and game, with no event, appended to the game |
| `Engine.Evolve` | GameOfLife/src/it/polito/extgol/ExtendedGameOfLife.java:35-97 | a null generation, or one without board or game, is rejected with nothing changed; an empty tile is rejected after the earlier tiles took their modifiers; otherwise the board moves to `StepCells` (famine read on this generation's event), the next generation is fresh, one step later and snapshotted, and it is appended to the game |
| `Engine.FinishEvolve` | GameOfLife/src/it/polito/extgol/ExtendedGameOfLife.java:53-96 | on a full board with the modifiers applied: interaction, decisions, next generation, commit and snapshot give `StepCells` and the appended generation |
| `Engine.CommitAndSnap` | GameOfLife/src/it/polito/extgol/ExtendedGameOfLife.java:86-94 | the commit gives `StepCells`, and the snapshot of the next generation is taken on the committed board |
| `EngineRun.EvolveInGame` | GameOfLife/src/it/polito/extgol/ExtendedGameOfLife.java:113 | evolve on a generation of a valid game keeps the game valid, changes neither schedule nor flags, and appends the next generation |
| `EngineRun.RunIteration` | GameOfLife/src/it/polito/extgol/ExtendedGameOfLife.java:112-115 | one iteration moves the loop state from i to i+1 evolve calls: one more generation is appended, with the next step number and no event, and becomes the current one |
| `EngineRun.Run` | GameOfLife/src/it/polito/extgol/ExtendedGameOfLife.java:109-117 | a null game is an error; otherwise it succeeds iff steps <= 0 or the board is full; with steps <= 0 nothing changes; otherwise exactly `steps` generations are appended, the k-th with step number start step + k + 1 and no event, and the cells are `EvolveSteps` of the initial ones, famine read on the start generation's event; schedule and flags unchanged |
| `EngineRun.RunLoop` | GameOfLife/src/it/polito/extgol/ExtendedGameOfLife.java:111-116 | the loop of `run(game, steps)` reaches the state after `steps` evolve calls: `steps` generations appended to the unchanged prefix, numbered on from the start generation, without events, the last one current, the cells `EvolveSteps` of the initial ones |
| `EngineRun.UnrollOnBoard` | GameOfLife/src/it/polito/extgol/ExtendedGameOfLife.java:154-157 | unrollEvent on every tile's cell: succeeds iff every tile has a cell, cells become `EventAll`, and a flag goes up iff it was up or its event is scheduled and some cell is alive |
| `EngineRun.SanctuaryStage` | GameOfLife/src/it/polito/extgol/ExtendedGameOfLife.java:163 | the sanctuary effect on the whole board: `SanctuaryAll` when the flag was up, nothing otherwise; the flag ends down |
| `EngineRun.BloodMoonStage` | GameOfLife/src/it/polito/extgol/ExtendedGameOfLife.java:168 | the blood-moon effect on the whole board: `BloodMoonAll` when the flag was up, nothing otherwise; the flag ends down |
| `EngineRun.EventStage` | GameOfLife/src/it/polito/extgol/ExtendedGameOfLife.java:152-160 | a scheduled event is unrolled on every cell, recorded on the current generation and written into the game's schedule; with none, nothing changes |
| `EngineRun.PrepareStep` | GameOfLife/src/it/polito/extgol/ExtendedGameOfLife.java:152-163 | the event stage, a snapshot taken after the event and the sanctuary effect, in that order |
| `EngineRun.FinishStep` | GameOfLife/src/it/polito/extgol/ExtendedGameOfLife.java:165-168 | evolve, then blood moon on the generation evolve returns |
| `EngineRun.RunStep` | GameOfLife/src/it/polito/extgol/ExtendedGameOfLife.java:147-171 | one iteration: the cells and flags become `Iterate` of the old ones (event, sanctuary, step, blood moon); the event is recorded on the current generation and in the schedule; the snapshot is the post-event board |
| `EngineRun.RunEventsIteration` | GameOfLife/src/it/polito/extgol/ExtendedGameOfLife.java:147-171 | one iteration moves the loop state from i to i+1 iterations: the current generation records iteration i's scheduled event, and a new generation with the next step number is appended and becomes current |
| `EngineRun.RunEventsLoop` | GameOfLife/src/it/polito/extgol/ExtendedGameOfLife.java:147-172 | the loop reaches the state after `steps` iterations: `steps` new, distinct generations appended, numbered on from the start generation; the start generation records the event of iteration 0 and the k-th appended one that of iteration k + 1, the last one none; schedule `Recorded`; cells and flags `RunSteps` of the initial ones |
| `EngineRun.RunWithEvents` | GameOfLife/src/it/polito/extgol/ExtendedGameOfLife.java:138-173 | a null game is rejected; steps <= 0 returns the game unchanged; otherwise it succeeds iff the board is full, the cells and flags are `RunSteps` of the initial ones under the event map (a missing map acts as an empty one), the schedule is `Recorded` and exactly `steps` generations are appended, the k-th with step number start step + k + 1; the start generation records the event scheduled at 0 (or keeps its own), the k-th appended one the event scheduled at k + 1, and the last one none |
| `Scenarios.MooreRowOfThree` | GameOfLife/src/it/polito/extgol/Cell.java:279-281 | the Moore neighbour table of a 3 x 1 grid is [[1], [0, 2], [1]] |
| `Scenarios.RowOfThreeSimultaneous` | GameOfLife/src/it/polito/extgol/ExtendedGameOfLife.java:66-91 | a row of three live BASIC cells becomes dead, alive, dead in one step: the middle cell counts both ends because no flag is written before the commit |
| `Scenarios.RowOfThreeSequential` | GameOfLife/src/it/polito/extgol/ExtendedGameOfLife.java:86-91 | under that tile-by-tile commit the same row dies out entirely, which the decision map avoids |
| `Scenarios.InteractAllIsIdentityForNaive` | GameOfLife/src/it/polito/extgol/Cell.java:453-455 | on a board of NAIVE cells the interaction phase changes nothing |
| `Scenarios.HealerVampirePairBothFire` | GameOfLife/src/it/polito/extgol/ExtendedGameOfLife.java:54-64 | a live healer and a live vampire side by side (5 lifepoints each) end at 3 and 7: both directions of the pair fire |

## Left out

- Persistence: the repositories, `saveGame`, both `loadEvents`, JPA metadata and ids. These are database I/O.
- The `currentGameFlag` field written by `run(game, steps)`. It only serves `loadEvents`.
- The per-cell list of generations and `Cell.addGeneration` (the call at ExtendedGameOfLife.java:90). This is a persistence back-reference and no rule reads it.
- The copy constructor of `Cell`, `toString`, `getAliveCells` and `visualize`. They only copy, print or delegate.
- `Game.setMood(mood, coords)`: an empty stub.
- The `Game` constructors that build a board (`Game(name, w, h)`, `create`, `createExtended`), `addGeneration(gen, step)`, `clearGenerations` and the name and board setters. They are not part of the engine. A game is built by the constructor here and given its board and start generation directly.
- `Tile`, `Board`, `Coord` and `Generation` are not part of this model beyond what the engine uses.
  - `Tile.interact` is an opaque per-tile integer added to the occupant's lifepoints (`Board.modifiers`).
  - `Tile.getNeighbors` is the board's neighbour table, a parameter. `MooreNeighbors` gives the Moore-8, edge-clipped instance, with index y * width + x.
  - `Board.getTile(coord)` is a tile index, and `SetMoods` requires every listed index to be on the board.
- `Generation.createNextGeneration` is assumed to create a fresh generation one step later, with the same board, no event and an empty snapshot, appended to the game with `addGeneration`. `Generation.snapCells` is assumed to record (alive, lifepoints) per cell of the board.
- The flag getters `getBloodMoonActive` and `getSanctuaryActive` are reads of the fields. The Java `Boolean` fields could be set to null, and that case is not modelled.
- Java `int` overflow of lifepoints, death counts and counts. The model uses unbounded integers.
- The order of HashMap and HashSet iteration. The loops pick an arbitrary remaining element, and each postcondition holds for every order.
- Game.Valid: a start generation must exist. `getStart` on an empty list would throw, and the run methods require a game set up with a board and at least one generation.
- Game.Valid: it also requires every generation of the game to be on the game's board and to point back to the game. The Java loops only read `currentGen.getBoard()` (ExtendedGameOfLife.java:38, 155, 163) and never check this. A game whose generations sit on different boards is not modelled.
- EngineRun.RunLoop, EngineRun.RunEventsLoop, EngineRun.RunWithEvents: the snapshot each visited generation keeps is stated for one iteration by `EngineRun.RunStep` and `Engine.Evolve`, but it is not carried across the loop. The cells it refers to change in later iterations.
- EngineRun.Run, EngineRun.RunWithEvents: on failure (an empty tile after some iterations), the partial state of cells and generations is not specified. Only the error, the unchanged board and the unchanged fields are.
- EngineRun.RunWithEvents: a tile without a cell during `unrollEvent` is a Java NullPointerException. It is modelled as the error `NullCell`.
- GameModel.Game.SanctuaryEffect: a generation without a board while the flag is up is a Java NullPointerException. It is excluded by the precondition.
- GameModel.Game.BloodMoonEffects: the same holds for a missing board while the flag is up.
- `Game.unrollEvent` with a null event or a null cell is a Java NullPointerException. Both are excluded by the types. Its `default` branch cannot be reached.
