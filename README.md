# Shadow Clone Escape — a Dafny model of the grid-game logic

Shadow Clone Escape is a browser maze game. The player walks a grid maze. Every
accepted step is logged. From time to time a *shadow clone* appears and replays a
copy of that log, one tile per frame. A clone that lands on the player ends the
run. The repository holds two versions of the game, and this project models the
game logic of both:

- `script.js`, the full game:
  - a recursive-backtracker maze generator on a step-2 lattice;
  - the move log;
  - `basic` and `wraith` clones (a wraith sometimes jumps ahead in its replay);
  - a spawn schedule that tightens over the run;
  - pickups (speed, cloak, freeze) and their timed effects;
  - the collision rule.
- `js/script.js`, the earlier version: a fixed 20 × 11 maze with a goal cell,
  clones that replay the whole log, and a loop that stops on a catch or on
  reaching the goal.

Files:

- `maze.dfy` (module `Maze`): grid dimensions, the Fisher-Yates `shuffle` on an
  `array`, and `generateMaze`/`carve` writing an `array2` in place. The proofs
  show that the border and the even-even cells stay walls, that every odd-odd
  interior cell is opened, and that every open cell is reachable from (1, 1).
  `carve` terminates because each call opens one more lattice cell, and the
  `decreases` clause says so.
- `clone.dfy` (module `Clones`): the `Clone` class of the full game, and the
  pure cursor arithmetic of its `update`.
- `game.dfy` (module `Game`): the `RunState` class, which holds the grid,
  player, move log, clones, pickups, `activePower`, `frameCount`,
  `cloneInterval`, `running` and the difficulty. It has the key handler,
  `applyPowerup`, the effect expiry, `spawnPowerup`, `spawnClone` and the
  frame step. Pure specification functions sit beside it.
- `early.dfy` (module `Early`): the earlier version, with its fixed layout,
  its clone and its frame loop.

The environment is turned into parameters:

- Each `Math.random()` draw is a `real` in [0, 1), passed in and compared
  exactly. The contracts hold for every draw.
- The shuffle's draws are passed as swap indices `j <= i`.
- `Date.now()` is a parameter `now`.
- The freeze effect's `setTimeout` un-freeze is an explicit `Unfreeze` method.
- `requestAnimationFrame` becomes one `Tick` call per frame.

Constants and rules the model takes from the code:

- The wraith's skip chance is `0.006 + min(0.04, frameCount/50000)`.
- The wraith's jump is `min(40, floor(r * min(200, len)))`.
- The spawn period's floor is 20, and the interval stops ramping once it is at
  most 60.
- The un-freeze is a timer over whatever clones exist when it fires.

## Model

| member | source | states |
|---|---|---|
| `Maze.GridDimension` | script.js:44-47 | the tile count per side is odd, equals floor(pixels/30) or one less, and is at least 5 exactly when the canvas side is at least 150 pixels |
| `Maze.ShuffledPermutes` | script.js:94 | the Fisher-Yates shuffle returns a permutation of its input, for every choice of swap indices |
| `Maze.Shuffle` | script.js:94 | the in-place loop leaves the array equal to the specification `Shuffled` of its old contents and the draws |
| `Maze.ShuffledSteps` | script.js:101 | carve's shuffled direction list holds each of the four two-cell steps exactly once |
| `Maze.StepGeometry` | script.js:103-105 | a step from a lattice cell that stays interior lands on a lattice cell; the cell half-way is a carvable non-lattice cell adjacent to both |
| `Maze.OpenCell` | script.js:105 | opening a carvable cell next to an open one keeps the grid equal to the opened set, and keeps every opened cell linked back to (1, 1) |
| `Maze.CarveStep` | script.js:102-107 | after one direction of carve's loop, the neighbour two cells away is open or outside the interior; only carvable cells are opened |
| `Maze.Carve` | script.js:99-109 | carve opens its cell; every lattice cell it opens ends with all its interior lattice neighbours open; it terminates because each call opens one more lattice cell |
| `Maze.LinkedReachable` | script.js:99-110 | following the cells each cell was carved from gives a walk of orthogonal steps through open cells back to (1, 1) |
| `Maze.LatticeClosed` | script.js:99-110 | if every opened lattice cell has its lattice neighbours open, every odd-odd interior cell is open |
| `Maze.CarvedGrid` | script.js:97-113 | a finished carving holds only 0/1, walls on the border and on even-even cells, the safe pocket open, every lattice cell open, and every open cell reachable from (1, 1) |
| `Maze.GenerateMaze` | script.js:97-114 | for odd c, r >= 5: r rows of c cells, each 0 or 1; border and even-even cells are walls; (1,1), (2,1), (1,2) and every odd-odd interior cell are open; every open cell is reachable from (1, 1) |
| `Clones.SkipChance` | script.js:179 | a wraith's skip chance lies in [0.006, 0.046] and reaches its cap from frame 2000 on |
| `Clones.JumpLength` | script.js:181 | a jump is at most 40 and shorter than the path when the path is not empty |
| `Clones.NextCursorSpec` | script.js:176-189 | one update keeps the cursor in [0, len] and never moves it back; a basic clone advances exactly one step until the end; a wraith advances one step plus its jump, clamped to len |
| `Clones.BasicCursorAfter` | script.js:185-189 | after k updates a basic clone's cursor is min(k, len) |
| `Clones.BasicReplayPosition` | script.js:166-189 | after k >= 1 updates a basic clone stands on path[min(k, len) - 1] |
| `Clones.WraithThreshold` | script.js:287 | the wraith probability lies in [0.12, 0.32] and is 0.32 from frame 1000 on |
| `Clones.KindFor` | script.js:287 | a draw below 0.12 always gives a wraith and one of 0.32 or more never does; from frame 1000 on a clone is a wraith exactly when its draw is below 0.32 |
| `Clones.WraithPersists` | script.js:287 | a draw that gives a wraith on some frame gives one on every later frame, so a basic outcome on a later frame means basic on every earlier one |
| `Clones.Clone.constructor` | script.js:166-175 | a new clone keeps its path, has cursor 0, is not frozen, and stands on path[0] (on (1, 1) for an empty path) |
| `Clones.Clone.Update` | script.js:176-190 | the cursor becomes `NextCursor` of the old one; the clone stays on the tile its cursor names; it is never behind one step per update, and a basic clone is exactly there |
| `Game.RandInt` | script.js:93 | randInt(a, b) lies in [a, b] |
| `Game.RandIntOnto` | script.js:93 | every value of [a, b] is produced by some draw |
| `Game.KindDrawn` | script.js:158 | the pickup kind is speed, cloak or freeze as the draw falls in the first, second or last third of [0, 1) |
| `Game.TargetSpec` | script.js:245-249 | each direction key aims at the neighbouring tile in its direction; any other key aims at the current tile |
| `Game.RemainingMembers` | script.js:255-262 | after collection, the pickups kept are exactly those not on the tile |
| `Game.RemainingDistinct` | script.js:255-262 | removing the pickups on a tile keeps pickups on distinct tiles |
| `Game.NothingOn` | script.js:255-262 | with no pickup on the tile, the pickup loop keeps every pickup and leaves the effects unchanged |
| `Game.CollectsAtMostOne` | script.js:255-262 | with pickups on distinct tiles, as spawnPowerup places them (script.js:155-159), a move removes at most one pickup and applies exactly that one's effect, or none |
| `Game.CollectSpec` | script.js:255-279 | collecting from a tile leaves the effect of the earliest listed pickup on it (the last one applied); speed grows by 4 per speed pickup collected; with nothing on the tile the effect is unchanged |
| `Game.ExpireSpec` | script.js:357-366 | an effect is dropped exactly when now >= until; a surviving effect is unchanged; expiring twice is expiring once |
| `Game.ExpireUndoesSpeed` | script.js:362-366 | a speed effect that runs out takes its 4 back and clears the effect |
| `Game.SpeedBonusOutlivesOverwrite` | script.js:268-273 | a speed effect overwritten by a cloak never takes its 4 back, so player.speed stays 4 higher after the cloak expires |
| `Game.RampBounds` | script.js:384 | starting from max(80, 280 - 80 * difficulty), the interval never increases and never falls below 60 - difficulty |
| `Game.SpawnPeriod` | script.js:381 | the spawn period is at least 20 |
| `Game.SpawnPeriodIsFloor` | script.js:381 | the integer period floor(5 * ci / (5 + 3 * d)) equals max(20, floor(ci / (1 + 0.6 * d))) over exact rationals |
| `Game.Snapshot` | script.js:285-286 | a snapshot has min(800, n) entries |
| `Game.SnapshotIsSuffix` | script.js:285-286 | the snapshot is the suffix of the log of that length, in order |
| `Game.Elapsed` | script.js:300 | the elapsed whole seconds s satisfy 1000 s <= now - start < 1000 (s + 1) |
| `Game.StoredBest` | script.js:301-303 | the stored best is the larger of the old best and the elapsed time |
| `Game.NewRecordSpec` | script.js:302 | a new record is announced exactly when the stored best changes |
| `Game.RunState.Candidate` | script.js:152-153 | each placement attempt aims at a tile of [1, cols-2] × [1, rows-2] |
| `Game.RunState.FirstFree` | script.js:151-161 | the attempt chosen is the first one that aims at a free tile, or none if no attempt does |
| `Game.RunState.WithPickupSpec` | script.js:148-161 | a spawn adds at most one pickup, at the end; it lies on an open interior tile that is neither the player's nor another pickup's; nothing is added exactly when every attempt missed |
| `Game.RunState.SnapshotOpen` | script.js:286 | a snapshot of a log of open tiles holds only open tiles |
| `Game.RunState.constructor` | script.js:117-141 | a reset gives an odd-sided maze whose open cells are all reachable from (1, 1); the player is on (1, 1); the log, clones and pickups are empty; frameCount is 0; cloneInterval is the difficulty's start value; the run is running; activePower is carried over |
| `Game.RunState.FreezeAll` | script.js:277 | every clone present is frozen |
| `Game.RunState.Unfreeze` | script.js:278 | every clone present is unfrozen |
| `Game.RunState.ApplyPowerup` | script.js:268-280 | the new effect replaces the old one (6000 ms for speed and cloak, 4000 ms for freeze); speed adds 4; freeze freezes exactly the clones present |
| `Game.RunState.ExpireEffect` | script.js:357-367 | the effect state becomes `Expire` of the old one |
| `Game.RunState.KeyDown` | script.js:243-264 | while running, a target in bounds and open is taken: the player moves there, exactly that tile is appended to the log, the pickups on it are removed (at most one, the rest kept in order) and applied; otherwise nothing changes |
| `Game.RunState.MoveTo` | script.js:250-262 | an accepted move puts the player on the tile, appends exactly that tile to the log, removes the pickups on it (at most one, the rest in order) and applies them; the state stays valid |
| `Game.RunState.CollectPickups` | script.js:255-262 | walking the pickups from the last, the ones on the tile are applied and spliced out; the rest stay in order; at most one is removed, and the effects become that pickup's effect applied once, or stay as they were |
| `Game.RunState.SpawnPowerup` | script.js:148-162 | the pickups become `WithPickup` of the old ones for the 200 attempts' draws |
| `Game.RunState.SpawnClone` | script.js:283-293 | with fewer than 4 moves logged nothing happens; otherwise exactly one new clone is appended, replaying the last min(800, n) moves, a wraith exactly when the draw is below the threshold, unfrozen and on the first tile of its path |
| `Game.RunState.StepClone` | script.js:391-401 | a frozen clone is skipped; any other one is updated, and it catches the player exactly when it is on the player's tile and no cloak is active |
| `Game.RunState.UpdateClones` | script.js:390-402 | clones are visited from last to first; frozen ones are skipped; the first hit without an active cloak ends the run, and the clones before it in the list are not updated |
| `Game.RunState.ScheduledSpawn` | script.js:382-386 | a scheduled spawn appends one clone, or two when the extra draw is below 0.02 + 0.03 * difficulty, and ramps the interval |
| `Game.RunState.StartFrame` | script.js:376-379 | frameCount advances by one; on every 600th frame a pickup spawn runs when its gate draw is below 0.9 |
| `Game.RunState.ClonePhase` | script.js:381-387 | a spawn happens exactly when the period divides frameCount and more than 8 moves are logged; each new clone replays the snapshot, has the threshold's type for its own draw and records the frame; otherwise the interval and clones are unchanged |
| `Game.RunState.Resolve` | script.js:389-402 | every clone from the catcher (or the first clone) to the end of the list is `Advanced` (skipped if frozen, else one update with its draws), the ones before the catcher are untouched; the catcher is unfrozen, on the player and uncloaked; then, when the run survives, the updateHUD expiry (script.js:442) |
| `Game.RunState.Advance` | script.js:380-402 | the clone phase, then the clone pass and the expiry: old clones keep their places and are `Advanced` from their old cursor, or untouched when before the catcher; new clones are fresh, unfrozen, carry the snapshot, type and frame they were made with and are `Advanced` from cursor 0; a surviving run has its effect expired (script.js:442) |
| `Game.RunState.RunFrame` | script.js:373-402 | frameCount advances, the pickup spawn and the clone phase follow their gates, new clones are fresh, unfrozen and carry their snapshot, type and frame, every clone from the last down to the catcher is `Advanced` and the rest are untouched, the catcher is an unfrozen uncloaked clone on the player, and a surviving run has its effect expired (script.js:442) |
| `Game.RunState.Tick` | script.js:372-402 | a stopped run changes nothing, not even a clone's cursor, position or update count; a running one runs `RunFrame`: it advances frameCount, may spawn a pickup and fresh unfrozen clones (each carrying its snapshot and type), updates every unfrozen clone from the last down to the catcher and leaves the rest untouched, ends only on an uncloaked hit by an unfrozen clone, and otherwise expires the effect (script.js:442) |
| `Early.LayoutShape` | js/script.js:20-32 | the layout has 11 rows of 20 cells; every border cell is 1; the only cell equal to 2 is (18, 1); the start (1, 1) is 0 |
| `Early.Run.WalkableInterior` | js/script.js:44 | a cell that is not a wall lies strictly inside the border, so every neighbour is inside the layout |
| `Early.Clone.constructor` | js/script.js:53-59 | a new clone needs a non-empty path, keeps it, and stands on path[0] |
| `Early.Clone.Update` | js/script.js:61-67 | after k updates the cursor is min(k, len) and the clone stands on path[min(k, len) - 1] |
| `Early.Run.constructor` | js/script.js:11-32 | the run starts on the fixed layout with the player on (1, 1), nothing logged and no clones |
| `Early.Run.KeyDown` | js/script.js:35-49 | the target is always inside the layout; it is taken exactly when it is not a wall (the goal included), and then it is appended to the log; otherwise nothing changes |
| `Early.Run.StepClone` | js/script.js:98-103 | one clone is updated once; it catches the player exactly when it stands on the player's tile |
| `Early.Run.UpdateClones` | js/script.js:97-104 | clones are updated in list order; the pass stops at the first one on the player's tile, and the clones after it are not updated |
| `Early.Run.EndFrame` | js/script.js:110-119 | on every 300th frame with a non-empty log, one clone replaying the whole log is appended; the loop stops as escaped exactly when the player is on the goal |
| `Early.Run.Frame` | js/script.js:76-119 | frameCount advances; the clones up to the catcher are each stepped once, the earlier ones miss and the later ones are not updated; a catch stops the loop before any spawn or goal check; otherwise the spawn and escape rules apply |
| `Early.Run.Tick` | js/script.js:76-122 | once the loop has stopped, no frame runs and no clone's cursor, position or update count changes; otherwise one frame runs: the clones up to the catcher are each stepped once, the earlier ones miss and the later ones are not updated; it ends caught exactly when a clone stands on the player, with no spawn; otherwise a clone replaying the whole log is appended on every 300th frame with a non-empty log, and the loop stops as escaped exactly on the goal |

## Left out

- Canvas rendering is not modelled, because it is pure presentation. This
  covers `drawMaze`, `drawPowerups`, `Clone.draw`, the trail and the player
  drawing.
- Particles are not modelled. Nor are `lerp` and `updateRenderPosition`, which
  only move the rendered position `rx`/`ry`. Both are floating-point
  presentation.
- The settings panel, `localStorage`, DOM creation, button bindings and audio
  are not modelled, because they are browser I/O. The game-over side effects
  are reduced to the pure comparisons `Elapsed`, `StoredBest` and `NewRecord`.
- `requestAnimationFrame`, `setTimeout`, `performance.now` and `Date.now` are
  browser timing. They become `Tick` and `Unfreeze` calls and a `now`
  parameter. The frame's `dt` only feeds rendering, so it is dropped.
- `Math.random` is not modelled. Each draw is a parameter, and the draws of
  one frame are passed per purpose rather than as one ordered stream.
- Probability thresholds are compared as exact reals, and `1 + 0.6 *
  difficulty` is taken as the exact rational 8/5 or 11/5. The model does not
  capture double-precision rounding. This changes the spawn period at
  difficulty 2: in doubles `1 + 2 * 0.6` is the double just above 2.2, so
  `Math.floor(99 / that)` is 44 and `Math.floor(66 / that)` is 29, where
  `Game.SpawnPeriod` gives 45 and 30. Both intervals occur on the
  difficulty-2 ramp (120, 117, ..., 63, 60), so on those two intervals
  script.js spawns on multiples of 44 and 29 and the model on multiples of 45
  and 30. At difficulties 0, 1 and 3 the two readings give the same floor on
  every interval their ramps reach.
- `player.speed` is kept as a plain counter, because it plays no part in
  stepping.
- `Clone.color` and `Clone.teleportCooldown` are omitted, because nothing reads
  them outside drawing.
- Positions are integers, so `Math.round` in the collision test is the
  identity.
- `Clones.Clone.Update` requires that a wraith with an empty path does not win
  its skip roll. That case would read `path[-1]`. It cannot arise, because
  clones are only spawned from at least 4 moves.
- `Early.Clone.constructor` requires a non-empty path, because `path[0].x`
  throws on an empty one. The spawn rule only builds clones from a non-empty
  log.
- In `js/script.js`, `gridWidth` and `gridHeight` are not modelled, because no
  rule reads them. The handler keeps accepting keys after the loop stops, and
  the model keeps that behaviour.
- `Maze.GenerateMaze` requires odd sides of at least 5. script.js has no size
  check: with a side of 3 the safe-pocket writes at script.js:112 open a border
  cell, and with a smaller side they write past the grid.
- The maze of a run is held as an immutable value in `Game.RunState`.
  `generateMaze` writes its grid in place, and nothing writes to it afterwards.
