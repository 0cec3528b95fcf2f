# Formula 1 vector race: the race-simulation core in Dafny

This project models the core of a turn-based "vector race" grid game. Bots drive over a
track made of integer cells, where 0 means impassable. Each bot repeats its previous move,
may speed up or slow down, and is eliminated when it cannot find an onward cell.

The model covers three Java classes:

- `DefaultMovement`: a speed bounded to [1, 4], and the vector rules for the main point,
  accelerate and decelerate.
- `DefaultTrackOperation`:
  - cell validity on a grid whose rows may differ in length;
  - the all-octant Bresenham line walk of `checkPassableTrack`;
  - the neighbour scan of `calculateNearbyMoves`;
  - the two-leg check `isValidAndPassable`;
  - the per-bot move resolver `executeNearbyMove`.
- `DefaultGameEngine`: the bot roster, the finish cells, the turn counter and the winner. It
  provides `updateRace`, `isRaceOver`, `allBotsEliminated`, the turn increment of
  `displayStatus`, and `getWinner`.

Modules:

- `Grid`: `Position`, `Track`, `Sign`, `Abs`, adjacency and scan order.
- `Movement`:
  - pure functions that specify the speed and point rules;
  - the `DefaultMovement` class, whose methods update `speed` in place;
  - `SpeedAfter`, the speed reached after a whole run of accelerate/decelerate calls.
- `Bots`: the part of a bot that the core reads and writes (position, previous move, crash
  flag, movement).
- `LineWalk`: the Bresenham walk as a function of its loop state (`Advance`, `Trace`,
  `Walk`), with its geometry proved once:
  - it ends on the arrival cell;
  - every step is a stride of 0 or `sx` in x and 0 or `sy` in y, and it always moves;
  - it never leaves the bounding box;
  - it has at most abs(dx) + abs(dy) + 1 cells.
- `TrackOperation`: the record `DefaultTrackOperation` over one track. Its loops and
  mutations are methods proved against the functions above:
  - `checkPassableTrack` keeps its `while (true)` loop over `x`, `y` and `err`;
  - `calculateNearbyMoves` keeps its nested loops and the final `remove`;
  - `executeNearbyMove` mutates the bot and its movement.
- `GameEngine`: the class `DefaultGameEngine`. `updateRace` loops over the roster, collects
  the crashed bots and removes them. Each bot step returns a ghost log of the steps taken so
  far, extended by that bot, and the engine keeps it.

The layout is an immutable field of the validator. The source stores it in a static field
shared by every instance, and the model does not reproduce that sharing.

Behaviour of the code that the model keeps as written:

- `isRaceOver` overwrites `winner` each time it finds a bot on a finish cell. The winner is
  therefore not fixed once recorded.
- `isValidPosition` accepts rows of different lengths: a cell is inside the grid when its row
  exists and is long enough.
- `executeNearbyMove` passes the main point, not the current cell, as `decelerate`'s
  "actual position". The result of that call is discarded, so only the speed change is
  observable.
- The neighbour list has a definite order: by x, then by y.
- The engine constructor does not check the start or finish cells.

## Model

| member | source | states |
|---|---|---|
| Movement.MainPoint | api/src/main/java/it/unicam/cs/formula1/Movement/DefaultMovement.java:66-69 | the main point is the current cell displaced by exactly the previous move; it equals the current cell iff the previous move is zero; it reads no state, so the speed is untouched |
| Movement.AcceleratedSpeed | api/src/main/java/it/unicam/cs/formula1/Movement/DefaultMovement.java:48-49 | the speed grows by one iff it is below 4 and is unchanged iff it is at least 4; a speed in [1, 4] stays in [1, 4] |
| Movement.AcceleratedPoint | api/src/main/java/it/unicam/cs/formula1/Movement/DefaultMovement.java:46-53 | below top speed the displacement is the previous move plus its sign vector, otherwise it is the main point; the bot stays put iff the previous move is zero |
| Movement.DeceleratedSpeed | api/src/main/java/it/unicam/cs/formula1/Movement/DefaultMovement.java:58-59 | the speed drops by one iff it is above 1 and is unchanged iff it is at most 1; a speed in [1, 4] stays in [1, 4] |
| Movement.DeceleratedPoint | api/src/main/java/it/unicam/cs/formula1/Movement/DefaultMovement.java:56-64 | above speed 1 the displacement is the previous move minus its sign vector unless that would be zero, in which case (and at speed 1) it is the main point; the result equals the actual position iff the previous move is zero |
| Movement.SpeedAfterStaysInRange | api/src/main/java/it/unicam/cs/formula1/Movement/DefaultMovement.java:46-64 | any sequence of accelerate/decelerate calls keeps a speed in [1, 4] inside [1, 4] and moves it by at most one per call |
| Movement.DefaultMovement.constructor | api/src/main/java/it/unicam/cs/formula1/Movement/DefaultMovement.java:41-43 | a new movement has speed 1, which is in range |
| Movement.DefaultMovement.Accelerate | api/src/main/java/it/unicam/cs/formula1/Movement/DefaultMovement.java:46-53 | the new speed and the returned cell are those of AcceleratedSpeed and AcceleratedPoint on the old speed; the speed range is preserved |
| Movement.DefaultMovement.Decelerate | api/src/main/java/it/unicam/cs/formula1/Movement/DefaultMovement.java:56-64 | the new speed and the returned cell are those of DeceleratedSpeed and DeceleratedPoint on the old speed; the speed range is preserved |
| Movement.DefaultMovement.SetSpeed | api/src/main/java/it/unicam/cs/formula1/Movement/DefaultMovement.java:75-77 | any value is stored, and the speed range holds afterwards exactly when the new value is in [1, 4] |
| Bots.Bot.constructor | api/src/main/java/it/unicam/cs/formula1/GameEngine/DefaultGameEngine.java:64 | an assumed starting state for the bots the engine is given: on the start cell, with no previous move, not crashed, at speed 1 |
| Bots.Bot.SetEliminated | api/src/main/java/it/unicam/cs/formula1/TrackOperation/DefaultTrackOperation.java:117 | marking a bot sets its crash flag and leaves its position and previous move alone |
| Bots.Bot.UpdatePosition | api/src/main/java/it/unicam/cs/formula1/TrackOperation/DefaultTrackOperation.java:120 | the bot moves to the given cell and its crash flag is unchanged; its previous move becomes the displacement just made, which is an assumption about Bot.java |
| Bots.Bot.CalculateNextMoves | api/src/main/java/it/unicam/cs/formula1/GameEngine/DefaultGameEngine.java:110 | a bot's own step changes only that bot and its movement, never clears its crash flag, and reports itself by extending the step log it is given |
| LineWalk.Begin | api/src/main/java/it/unicam/cs/formula1/TrackOperation/DefaultTrackOperation.java:65-71 | defines the walk's starting state: the start cell with `err = dx + dy`; LineWalk.AdvanceStep and its neighbours prove what it keeps |
| LineWalk.Advance | api/src/main/java/it/unicam/cs/formula1/TrackOperation/DefaultTrackOperation.java:77-85 | defines one iteration: step x by `sx` and add `dy` when `2*err >= dy`, step y by `sy` and add `dx` when `2*err <= dx`, both tests on the error from before the iteration |
| LineWalk.Trace | api/src/main/java/it/unicam/cs/formula1/TrackOperation/DefaultTrackOperation.java:72-86 | defines the cells the loop visits from a given state up to and including the arrival cell; its termination measure is the Manhattan distance left |
| LineWalk.Walk | api/src/main/java/it/unicam/cs/formula1/TrackOperation/DefaultTrackOperation.java:64-86 | defines the cells visited from `start` to `arrive`; LineWalk.WalkShape states its shape |
| LineWalk.StepGuards | api/src/main/java/it/unicam/cs/formula1/TrackOperation/DefaultTrackOperation.java:77-85 | an axis already at the arrival coordinate is never stepped, and at least one axis is stepped |
| LineWalk.StepError | api/src/main/java/it/unicam/cs/formula1/TrackOperation/DefaultTrackOperation.java:77-85 | after an iteration the error term is still `dx*(1+j) + dy*(1+i)` for the step counts i, j, and stays in [2*dy, 2*dx] |
| LineWalk.AdvanceMoves | api/src/main/java/it/unicam/cs/formula1/TrackOperation/DefaultTrackOperation.java:77-85 | an iteration that does not stop takes a stride, stays in the bounding box, counts one more step on each axis it moves and gets closer to the arrival cell |
| LineWalk.AdvanceStep | api/src/main/java/it/unicam/cs/formula1/TrackOperation/DefaultTrackOperation.java:72-86 | every non-final iteration keeps the loop invariant, moves x by 0 or sx and y by 0 or sy with at least one moving, and strictly decreases the Manhattan distance left, so the loop terminates |
| LineWalk.TraceUnfold | api/src/main/java/it/unicam/cs/formula1/TrackOperation/DefaultTrackOperation.java:72-86 | the walk from a cell that is not the arrival cell is that cell followed by the walk from the next cursor |
| LineWalk.TraceEndsAtArrive | api/src/main/java/it/unicam/cs/formula1/TrackOperation/DefaultTrackOperation.java:72-76 | the walk starts on the current cell and always ends on the arrival cell |
| LineWalk.TraceIsConnected | api/src/main/java/it/unicam/cs/formula1/TrackOperation/DefaultTrackOperation.java:77-85 | consecutive cells of the walk are strides: no gap, no standing still, no step against the direction of travel |
| LineWalk.TraceStaysInBox | api/src/main/java/it/unicam/cs/formula1/TrackOperation/DefaultTrackOperation.java:72-86 | the walk never overshoots the arrival cell on either axis |
| LineWalk.TraceLengthBound | api/src/main/java/it/unicam/cs/formula1/TrackOperation/DefaultTrackOperation.java:72-86 | the walk visits at most the Manhattan distance plus one cells |
| LineWalk.WalkShape | api/src/main/java/it/unicam/cs/formula1/TrackOperation/DefaultTrackOperation.java:64-86 | the whole walk from `start` to `arrive` begins on `start`, ends on `arrive`, moves by strides, stays in the bounding box and has at most abs(dx) + abs(dy) + 1 cells |
| TrackOperation.IndexOf | api/src/main/java/it/unicam/cs/formula1/TrackOperation/DefaultTrackOperation.java:98 | the index of a present cell holds that cell, and no earlier index does |
| TrackOperation.RemoveFirst | api/src/main/java/it/unicam/cs/formula1/TrackOperation/DefaultTrackOperation.java:98 | `remove(Object)` returns the list unchanged when the cell is absent, and otherwise the list with exactly its first occurrence of the cell taken out, the rest in order |
| TrackOperation.RemovedAt | api/src/main/java/it/unicam/cs/formula1/TrackOperation/DefaultTrackOperation.java:98 | taking one element out leaves the list one shorter, adds nothing, keeps every other value, and keeps a strictly ordered list strictly ordered without that value |
| TrackOperation.RemoveFirstFacts | api/src/main/java/it/unicam/cs/formula1/TrackOperation/DefaultTrackOperation.java:98 | after `remove`, the list is one shorter iff the cell was present, holds nothing new, keeps every other cell, and an ordered scan result stays ordered with the cell gone |
| TrackOperation.SharedMoves | api/src/main/java/it/unicam/cs/formula1/TrackOperation/DefaultTrackOperation.java:113-115 | a cell is kept iff it is a neighbour of the main point, is not the current cell, and is a neighbour of the current cell |
| TrackOperation.DefaultTrackOperation.IsValidPosition | api/src/main/java/it/unicam/cs/formula1/TrackOperation/DefaultTrackOperation.java:103-107 | defines validity: non-negative x and y, x below the row count, y below the length of row x, and a nonzero cell |
| TrackOperation.DefaultTrackOperation.ValidPositionIsPassableCell | api/src/main/java/it/unicam/cs/formula1/TrackOperation/DefaultTrackOperation.java:103-107 | the valid positions are exactly the set of nonzero cells `(x, y)` with `x` a row index and `y` an index into row `x` |
| TrackOperation.DefaultTrackOperation.Passable | api/src/main/java/it/unicam/cs/formula1/TrackOperation/DefaultTrackOperation.java:64-87 | defines what `checkPassableTrack` answers: every cell of the walk from `start` to `arrive` is valid |
| TrackOperation.DefaultTrackOperation.ErrorFits | api/src/main/java/it/unicam/cs/formula1/TrackOperation/DefaultTrackOperation.java:77 | with coordinates below 2^28, `2 * err` fits a 32-bit int at every iteration |
| TrackOperation.DefaultTrackOperation.WalkHead | api/src/main/java/it/unicam/cs/formula1/TrackOperation/DefaultTrackOperation.java:73-76 | the walk from the current cell is valid only if that cell is; on the arrival cell, the walk is valid iff that cell is |
| TrackOperation.DefaultTrackOperation.WalkStep | api/src/main/java/it/unicam/cs/formula1/TrackOperation/DefaultTrackOperation.java:72-86 | one iteration keeps the invariant and shrinks the distance left; the remaining walk is valid iff the current cell and the walk from the next cursor are valid |
| TrackOperation.DefaultTrackOperation.PassableEndpoints | api/src/main/java/it/unicam/cs/formula1/TrackOperation/DefaultTrackOperation.java:72-76 | a passable segment has valid endpoints; from an invalid start nothing is passable; a one-cell segment is passable iff its cell is valid |
| TrackOperation.DefaultTrackOperation.CheckPassableTrack | api/src/main/java/it/unicam/cs/formula1/TrackOperation/DefaultTrackOperation.java:64-87 | the loop terminates and returns true exactly when every cell of the walk from `start` to `arrive` is valid |
| TrackOperation.DefaultTrackOperation.IsValidAndPassable | api/src/main/java/it/unicam/cs/formula1/TrackOperation/DefaultTrackOperation.java:57-61 | the result is the conjunction of the two validity checks and the two passability checks, and that equals the two passability checks alone |
| TrackOperation.DefaultTrackOperation.ScanCell | api/src/main/java/it/unicam/cs/formula1/TrackOperation/DefaultTrackOperation.java:93-96 | visiting one cell of the block, and appending it when it is valid, extends the scanned prefix by that cell, keeps it in scan order and stays within the count bound |
| TrackOperation.DefaultTrackOperation.ScanColumn | api/src/main/java/it/unicam/cs/formula1/TrackOperation/DefaultTrackOperation.java:92-97 | finishing column `dx` leaves the scan exactly where column `dx + 1` begins |
| TrackOperation.DefaultTrackOperation.CalculateNearbyMoves | api/src/main/java/it/unicam/cs/formula1/TrackOperation/DefaultTrackOperation.java:90-100 | the result holds exactly the valid cells at Chebyshev distance 1, never the centre, in x-then-y scan order without repeats, at most 8 of them |
| TrackOperation.DefaultTrackOperation.ExecuteNearbyMove | api/src/main/java/it/unicam/cs/formula1/TrackOperation/DefaultTrackOperation.java:110-122 | with no cell next to both the main point and the current cell (other than the current cell), the bot is eliminated and its position, previous move and speed are unchanged; otherwise it decelerates once and moves to such a cell, which is adjacent, valid and different from where it was, and it its crash flag is unchanged |
| GameEngine.FirstAtFinish | api/src/main/java/it/unicam/cs/formula1/GameEngine/DefaultGameEngine.java:87-89 | there is a result iff some bot stands on a finish cell, and it is the index of the first such bot in list order |
| GameEngine.Survivors | api/src/main/java/it/unicam/cs/formula1/GameEngine/DefaultGameEngine.java:108-116 | exactly the bots without the crash flag are kept, and their number is the list length minus the flagged entries |
| GameEngine.RemoveAll | api/src/main/java/it/unicam/cs/formula1/GameEngine/DefaultGameEngine.java:116 | `removeAll` keeps exactly the entries not in the removal list |
| GameEngine.RemoveAllFlagged | api/src/main/java/it/unicam/cs/formula1/GameEngine/DefaultGameEngine.java:108-116 | removing a list that holds exactly the flagged bots leaves exactly the survivors |
| GameEngine.SurvivorsKeepOrder | api/src/main/java/it/unicam/cs/formula1/GameEngine/DefaultGameEngine.java:116 | the survivors are a subsequence of the roster, so their relative order is kept |
| GameEngine.DefaultGameEngine.constructor | api/src/main/java/it/unicam/cs/formula1/GameEngine/DefaultGameEngine.java:62-68 | a new engine holds the given track and bots, its finish cells are the track's end positions, the turn is 1 and there is no winner |
| GameEngine.DefaultGameEngine.IsRaceOver | api/src/main/java/it/unicam/cs/formula1/GameEngine/DefaultGameEngine.java:86-95 | the race is over iff some bot stands on a finish cell; then the winner is the first such bot in list order, otherwise the winner is unchanged |
| GameEngine.DefaultGameEngine.AllBotsEliminated | api/src/main/java/it/unicam/cs/formula1/GameEngine/DefaultGameEngine.java:98-104 | true iff no bot is left, and nothing is modified |
| GameEngine.DefaultGameEngine.UpdateRace | api/src/main/java/it/unicam/cs/formula1/GameEngine/DefaultGameEngine.java:107-117 | every bot present at the start takes its step exactly once, in list order; afterwards the roster is the old roster minus exactly the crashed bots, survivors keep their order and none is flagged, crashes are never undone, and the size drops by the number of crashed entries |
| GameEngine.DefaultGameEngine.DisplayStatus | api/src/main/java/it/unicam/cs/formula1/GameEngine/DefaultGameEngine.java:121 | the turn counter grows by exactly one |
| GameEngine.DefaultGameEngine.GetWinner | api/src/main/java/it/unicam/cs/formula1/GameEngine/DefaultGameEngine.java:127-130 | returns the recorded winner; it may only be called once a winner exists |

## Left out

- TrackOperation.DefaultTrackOperation.CheckPassableTrack: requires every coordinate to be below 2^28 in absolute value. This is so that `2 * err` provably fits a 32-bit int. Java's wrap-around on larger grids is not modelled.
- TrackOperation.DefaultTrackOperation.IsValidAndPassable: has the same coordinate bound, because it calls CheckPassableTrack.
- No other arithmetic models 32-bit overflow: coordinates, moves and the speed are unbounded integers.
- `startRace` is not modelled, because it is about threading and timing. It covers the 500 ms scheduled executor and its task that calls `isRaceOver`, `allBotsEliminated`, `updateRace` and `displayStatus`.
- The engine does not load the track or the bots from a configuration file, because that is I/O through factories that are not part of this model. They are constructor parameters instead.
- All console output is left out because printing is not core behaviour. This covers `displayStatus`'s bot listing, the elimination messages and `getWinner`'s message. `displayStatus` keeps only its turn increment.
- `java.util.Random` in `executeNearbyMove` is not modelled, because the pseudo-random generator is not behaviour worth verifying. The model picks any index into the valid moves, so every contract holds for every choice.
- `getSpeed`, `getTrack` and `getBots` are plain getters, so the model reads the fields directly.
- Bot.java is not part of this model.
  - Only the bot members the core calls are given.
  - `calculateNextMoves` is an abstract step: it may change the bot and its movement, and may set the crash flag but never clears it.
  - Bots are compared by identity in `removeAll`.
- Bots.Bot.UpdatePosition: assumes that `updatePosition` also sets the previous move to the displacement just made. Bot.java is not part of this model, so this is an assumption. ExecuteNearbyMove's clause on the new previous move depends on it.
- Bots.Bot.constructor: the start state of a bot (start cell, zero previous move, not crashed, speed 1) is assumed. Bots are built by a factory that is not part of this model, and the engine only receives them.
- `executeNearbyMove` recomputes `calculateNearbyMoves(currentPosition)` for every candidate. The model computes it once, because the result does not depend on the candidate.
- DefaultRaceManager.java and App.java are not part of this model, because they are user-interface wiring.
