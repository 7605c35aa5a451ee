# Snake game state engine in Dafny

This project models the game-state engine of a single-page Snake game
(`script.js`). The page keeps its state in global variables. `snake` is a
head-first list of grid cells. The others are `food`, the committed
`direction`, the buffered `nextDirection`, `score`, the tick interval
`gameSpeed` and the `gameRunning` flag. The functions `initGame`,
`createFood`, `update`, `gameOver`, `startGame`, `resetGame` and the
direction-input handlers update those variables in place.

The model has three modules:

- `Grid` (grid.dfy): cells, the `tileCount` x `tileCount` board, and a
  pigeonhole lemma. The lemma says a snake shorter than the board has
  cells leaves a free cell.
- `Rules` (rules.dfy): the state as an immutable `Game` value. It defines
  one tick (`Tick`), the direction rule (`Steer`, `OnKey`) and the
  `Init`/`Start`/`Reset` transitions as functions. Lemmas state what the
  game promises: how the snake moves, grows and crashes, the score and the
  interval, and the direction rule. `Inv` is the invariant of every
  reachable state: the snake is on the board and never crosses itself, the
  food is on the board and off the snake, the score equals 10 times the
  cells grown, the interval is even and within [50, 150], and the buffered
  direction never reverses the committed one. `TickKeepsInv` proves that a
  tick keeps it.
- `Session` (session.dfy): class `GameSession`. Its fields are the page's
  globals, and its methods follow the source step by step. The snake is a
  `seq` field that `Update` prepends to and drops the last cell from. The
  self-collision and food scans are a `while` loop over the segments
  (`OnSnake`). Each of `InitGame`, `GameOver`, `Update`, `StartGame`,
  `ResetGame`, `Turn` and `KeyDown` ensures that the new state
  (`Snapshot()`) is the matching `Rules` function of the old state, and
  keeps `Valid()`. `CreateFood` changes only `food` and ensures that it is
  a board cell on no segment.

The board size `tileCount` (canvas width divided by the 20-pixel tile) is a
constructor parameter. It must be above 10 because the fixed starting snake
lies in row 10. `Math.random` is a nondeterministic choice of board cell.

Three behaviours of script.js worth knowing:

- Reset stops the game (`gameRunning` false, script.js:217-222); it does
  not leave a fresh game running. A new game waits for start.
- The tick interval is not reset by `initGame` or `resetGame`. It carries
  over from one game to the next (script.js:14, 19-37).
- Food placement retries without any bound (script.js:49). The model needs
  a free cell to exist (see "Left out").

## Model

| member | source | states |
|---|---|---|
| `Grid.FreeCellExists` | script.js:40-53 | a snake on the board that is shorter than tileCount² leaves some board cell free, so food placement can succeed |
| `Rules.Step` | script.js:129-142 | the new head is adjacent to the old one; up decreases y, down increases y, left decreases x, right increases x |
| `Rules.Opposite` | script.js:228-256 | the reverse of a direction differs from it and undoes a step in it |
| `Rules.StepBackOnlyByOpposite` | script.js:228-256 | a step followed by a step in `e` returns to the start exactly when `e` is the reverse, which is the move the handlers refuse |
| `Rules.KeyDirectionInverse` | script.js:225-240 | each arrow key selects its own direction, and only the arrow keys select a direction |
| `Rules.TickCommitsDirection` | script.js:124 | a tick commits the buffered direction, crash or not |
| `Rules.TickMoves` | script.js:124-142 | a tick that neither crashes nor eats puts the head one cell on in the committed direction, drops the old last cell, and keeps length, score, food and interval |
| `Rules.TickEats` | script.js:159-175 | landing on food prepends the head and keeps every old segment (length +1), adds 10 points, takes the new food cell and speeds up |
| `Rules.TickCrashes` | script.js:145-156 | a wall or self collision clears the running flag and leaves snake, food, score and interval unchanged |
| `Rules.TickIntoTailCrashes` | script.js:151-156 | moving into the tail's current cell is a collision, because the scan includes the tail |
| `Rules.TickLength` | script.js:158-179 | a tick changes the snake's length by 0 or +1 |
| `Rules.TickSpeed` | script.js:171-175 | the interval changes at a tick if and only if food is eaten while it is above 50, and then by exactly -2 |
| `Rules.TickNeverReverses` | script.js:124 | the direction committed at a tick is never the reverse of the previous one, and the invariant "buffered never reverses committed" survives the tick |
| `Rules.TickKeepsInv` | script.js:122-180 | a tick keeps the invariant: snake in bounds and pairwise distinct, food in bounds and off the snake, score = 10 x growth, interval even in [50,150], no buffered reversal |
| `Rules.SpeedUpKeepsBounds` | script.js:171-172 | shortening the interval keeps it even and never below 50 |
| `Rules.SteerAllKeepsNoReversal` | script.js:243-257 | any burst of direction inputs between two ticks changes only the buffered direction. The result is the last accepted (non-reversing) input, or the old buffered direction when every input was a reversal, and it is never the reverse of the committed direction |
| `Rules.OnKeyKeepsInv` | script.js:225-240 | a key press changes at most the buffered direction and keeps the invariant |
| `Rules.InitEstablishesInv` | script.js:19-37 | initialising with food off the starting snake establishes the invariant, sets both directions to right, and keeps the interval and the running flag |
| `Rules.StartIdempotent` | script.js:208-214 | start is a no-op while a game runs. Otherwise it gives the starting snake, score 0, direction right, and the old interval. Afterwards the game runs, and a second start changes nothing |
| `Rules.ResetOutcome` | script.js:217-222 | reset leaves the game stopped, with the starting snake, the new food, score 0 and both directions right, and keeps the interval |
| `Rules.SpeedAfterFormula` | script.js:14 | after k foods since page load the interval is max(50, 150 - 2k), and it is always even and within [50,150] |
| `Rules.OpeningMove` | script.js:21-25 | from a fresh game with food elsewhere, one tick gives the snake (6,10),(5,10),(4,10) and score 0 |
| `Rules.LeftWallEnds` | script.js:145-148 | a head at x = 0 moving left ends the game with the snake unchanged |
| `Session.GameSession.constructor` | script.js:7-16 | page load: the game is initialised once, interval 150, not running, and the invariant holds |
| `Session.GameSession.OnSnake` | script.js:151-156 | the segment scan reports a hit exactly when the cell is one of the snake's cells |
| `Session.GameSession.CreateFood` | script.js:40-53 | rejection sampling settles on a board cell that is on no segment |
| `Session.GameSession.InitGame` | script.js:19-37 | the state becomes `Init` of the old state with the new food, and the invariant holds |
| `Session.GameSession.GameOver` | script.js:189-191 | only the running flag changes, to false, and the invariant holds |
| `Session.GameSession.Update` | script.js:122-180 | the in-place update (unshift, pop, early returns) yields exactly `Tick` of the old state and keeps the invariant |
| `Session.GameSession.StartGame` | script.js:208-214 | the new state is `Start` of the old one, and the invariant holds |
| `Session.GameSession.ResetGame` | script.js:217-222 | the new state is `Reset` of the old one, and the invariant holds |
| `Session.GameSession.Turn` | script.js:243-257 | a direction button buffers its direction unless it reverses the committed one, and the invariant holds |
| `Session.GameSession.KeyDown` | script.js:225-240 | an arrow key acts as its button, other keys do nothing, and the invariant holds |

## Left out

- Rendering: `draw()` and the overlay that `gameOver()` paints (script.js:56-119, 193-204). This is canvas drawing with floating-point geometry, and no game state changes.
- Timers: the `setInterval`/`clearInterval` calls (script.js:173-174, 190, 212, 218) and `gameLoop` are scheduling I/O. Only the `gameSpeed` value and the `gameRunning` flag are modelled. One tick is one call of `Update`.
- DOM lookups, listener wiring and the score text updates (script.js:1-4, 32, 165, 243-261) are browser glue. Only the rule the handlers apply is modelled.
- Session.GameSession.CreateFood: `Math.random` is a nondeterministic choice of board cell, and the random distribution is not modelled. A rejected cell is never drawn again, which makes the retries terminate. The model can return exactly the free cells the source can return.
- Session.GameSession.Update: it requires the grown snake to leave a free cell when food is eaten. With a full board the source's food placement recurses without end, so the model does not cover eating the last free cell.
- Session.GameSession.constructor: it requires a board more than 10 tiles wide, so the fixed starting snake in row 10 is on the board. Smaller boards, and a canvas width that is not a multiple of 20 (a fractional `tileCount`), are not modelled.
- Session.GameSession.Update: it does not check `gameRunning`, like the source, which relies on the cleared timer to stop ticks. The model does not describe when ticks happen.
