# Retro Snake game-state engine in Dafny

This project models the update engine of a one-file Snake game (`src/main.cpp`).
The game has a 25 x 25 grid of integer cells. The snake is a sequence of
cells with the head first. It also has a heading and a one-shot growth flag
(`add_segment`). A single food cell sits on the grid, and the game keeps a
score and a `running` flag.

While the game is running, each tick of the update clock does four things in
order (a tick of a stopped game does nothing):
1. It steps the snake: it pushes a new head and drops the tail unless the
   growth flag is set.
2. It runs the food check.
3. It runs the edge check.
4. It runs the self-collision check.

Either collision ends the round through `GameOver`, which does four things:
- it resets the snake;
- it moves the food off the reset body;
- it stops the game;
- it zeroes the score.

The arrow keys change the heading unless the key asks for the exact reverse,
and an accepted key restarts a stopped game.

Modules, one per component:

- `Geometry`: `Vector2` with integer coordinates, the constant `CellCount = 25`,
  the grid, unit headings and the edge test. It also holds the counting
  argument: a body with fewer cells than the field leaves a free cell, and a
  body of distinct cells of the field has at most 625 cells.
- `Occupancy`: `ElementInDeque`, the linear scan, proved to equal membership.
- `SnakeBody`: the `Snake` record, with `Update` (step or grow) and `Reset`.
- `FoodPlacement`: the resample-until-free loop. `GenerateRandomPos` is the free
  cell chosen by a `:|` choice. `ResampleLoop` runs the loop over a given
  sequence of random draws.
- `GameEngine`: the `Game` record, the three collision checks, `GameOver` and
  `Update`. It also has the invariant `Valid` and the lemmas showing that every
  tick preserves it.
- `Controls`: the four key guards as the main loop writes them, and a corrected
  guard (see Findings).
- `Play`: whole sessions as sequences of ticks and key presses. Every game
  reached from a valid game is valid.

The game-level functions are `ghost` because food placement is a choice, not a
computation.

Food placement terminates only if some cell is free, and the source has no
guard for a full field. The model states this as the precondition
`GameEngine.TickTerminates`. `Play.Run` reports a tick that would never
finish as `Blocked`. `GameEngine.TickBlocksOnlyOnFullField` proves that this
happens only when the stepped snake covers all 625 cells.

`Reset` does not clear `add_segment` (src/main.cpp:57-60), and the model keeps
that behaviour. `GameEngine.UpdateOutcome` shows that this never matters in a
valid game. Eating and colliding cannot happen in the same tick, so the
growth flag is always clear when a tick ends the round.

## Model

| member | source | states |
|---|---|---|
| `Occupancy.ScanFrom` | src/main.cpp:16-21 | the scan from index `i` returns true exactly when some later index holds the cell |
| `Occupancy.ElementInDeque` | src/main.cpp:15-22 | true exactly when some index of the deque holds the cell; false on an empty deque |
| `Occupancy.ElementInDequeIsMembership` | src/main.cpp:15-22 | the scan agrees with sequence membership |
| `SnakeBody.Update` | src/main.cpp:48-55 | the new head is the old head plus the heading; with the flag set the old body follows whole and the length grows by one; without it the old body minus its last cell follows and the length is kept; the flag ends clear and the heading is unchanged |
| `SnakeBody.Reset` | src/main.cpp:57-60 | the body becomes (6,9),(5,9),(4,9) and the heading (0,1); the growth flag is kept |
| `SnakeBody.UpdateOnlyAddsHead` | src/main.cpp:48-55 | every cell after the step is the new head or was already in the body |
| `SnakeBody.UpdateVacatesTail` | src/main.cpp:48-55 | without growth, the old tail of a duplicate-free body is no longer behind the head |
| `SnakeBody.StepLaw` | src/main.cpp:48-55 | from the initial body heading down, one plain step gives (6,10),(6,9),(5,9) |
| `SnakeBody.GrowthLaw` | src/main.cpp:48-55 | with the flag set the step gives (6,10),(6,9),(5,9),(4,9), and the next step drops the new tail |
| `FoodPlacement.GenerateRandomPos` | src/main.cpp:89-95 | for a body shorter than the field, the placed food is on the field and off the body |
| `FoodPlacement.ResampleLoop` | src/main.cpp:83-95 | given draws on the field, the loop places food exactly when some draw is off the body; the placed cell is the first such draw and is free |
| `Geometry.FreeCellExists` | src/main.cpp:89-95 | the resampling loop can finish: a body shorter than the field leaves a free cell |
| `Geometry.StepLeavesGridIffOnEdge` | src/main.cpp:142-149 | a unit step from a cell of the field leaves it exactly when a coordinate becomes -1 or 25 |
| `GameEngine.CheckCollisionWithFood` | src/main.cpp:133-140 | head on food: the flag is set, the score rises by one, and the new food is on the field and off the body; otherwise nothing changes |
| `GameEngine.CheckCollisionWithEdges` | src/main.cpp:142-149 | the round ends exactly when a head coordinate is -1 or 25; otherwise nothing changes |
| `GameEngine.GameOver` | src/main.cpp:151-157 | the body and heading are reset, the food is off the reset body, running is false, the score is 0, and the growth flag survives |
| `GameEngine.CheckCollisionWithTail` | src/main.cpp:159-165 | the round ends exactly when the head occurs in the rest of the body; otherwise nothing changes |
| `GameEngine.Update` | src/main.cpp:124-131 | a stopped game is left unchanged; the body never becomes empty |
| `GameEngine.GameOverForgetsHistory` | src/main.cpp:151-157 | games with the same growth flag end with the same reset snake, both stopped with score 0, each with its food on a free cell of the reset body |
| `GameEngine.GameOverIsStable` | src/main.cpp:142-165 | neither collision check fires on the reset state, so a second check in the same tick changes nothing |
| `GameEngine.UpdateOutcome` | src/main.cpp:124-165 | a running tick resets the game exactly when the stepped head is off the field or on the rest of the body, and the flag is then clear; otherwise eating grows the snake, scores and moves the food off the body; otherwise only the snake moves |
| `GameEngine.ChasingTailIsNoCollision` | src/main.cpp:159-165 | without growth, a head that steps onto the old tail cell is no collision: the game keeps running with the head there and the score unchanged |
| `GameEngine.EdgeScenario` | src/main.cpp:142-149 | a head at (24,9) heading right leaves the field and the round ends in that tick |
| `GameEngine.UpdatePreservesValid` | src/main.cpp:124-165 | after every tick the food is off the body, the body has at least 3 distinct cells of the field, the heading is a unit vector, and the score equals the growth since the reset |
| `GameEngine.TickBlocksOnlyOnFullField` | src/main.cpp:133-140 | the food check of a valid game can only fail to find a free cell when the stepped snake covers all 625 cells |
| `Controls.AcceptsIffNotReverse` | src/main.cpp:182-200 | for a unit heading, each one-coordinate key guard holds exactly when the key does not ask for the reverse heading |
| `Controls.Press` | src/main.cpp:182-200 | an accepted key sets its heading and running; a refused key changes nothing; body, flag, food and score never change |
| `Controls.PressNeverReverses` | src/main.cpp:182-200 | a press never sets the reverse of a unit heading, keeps it a unit vector, and a press that changes it leaves the game running |
| `Controls.PressPreservesValid` | src/main.cpp:182-200 | key presses keep a valid game valid |
| `Controls.FrameKeys` | src/main.cpp:182-200 | the four guards of one frame keep body, flag, food and score and keep the heading a unit vector; no key changes nothing; a single key acts as that key's press; a changed heading is the heading of some pressed key and leaves the game running; the game runs after the frame exactly when it was running or some pressed key passes its guard against the heading before the frame, so an accepted key or a running game leaves it running |
| `Controls.ResumeLeftAfterResetDies` | src/main.cpp:192-195 | from the reset state Left is accepted and the next tick ends the round again |
| `Controls.TwoKeysReverseInOneFrame` | src/main.cpp:182-200 | heading right, Up and Left in one frame leave the heading reversed |
| `Controls.PressGuarded` | src/main.cpp:192-195 | the corrected guard sets the heading only when the key guard holds and the head would not land on the neck; it keeps the head off the neck |
| `Controls.RunningTickIsNeckSafe` | src/main.cpp:124-165 | a tick of a running valid game always ends with the head off the neck, whatever the heading before, so only a key press can point it back |
| `Controls.UpdateKeepsNeckSafe` | src/main.cpp:124-165 | a tick of a valid game whose head is off the neck before the tick leaves the head off the neck |
| `Controls.GuardedRefusesLeftAfterReset` | src/main.cpp:192-195 | the corrected guard refuses Left in the reset state |
| `Play.InitialGame` | src/main.cpp:100-103 | the game starts valid and running with score 0 and the initial snake; the initial heading keeps the head off the neck |
| `Play.HandleKey` | src/main.cpp:182-200 | a key refused by the written guard changes nothing; with the written guard an accepted key sets its heading and running; with the corrected guard so does an accepted key that keeps the head off the neck; any change is to the key's heading with the game running; body, flag, food and score are never touched; the corrected guard refuses a key that would put the head on the neck |
| `Play.Run` | src/main.cpp:175-200 | every game reached by ticks and key presses from a valid game is valid; with the corrected guard the head also stays off the neck; a session blocks only where the stepped snake fills all 625 cells (`Play.RunBlocksOnlyOnFullField`) |
| `Play.RunBlocksOnlyOnFullField` | src/main.cpp:83-95 | a session ends in `Blocked` only at a tick of a running game whose stepped snake covers all 625 cells, the one case where the resampling loop never finds a free cell |
| `Play.LeftThenTickAfterReset` | src/main.cpp:178-195 | in a session, Left and then a tick after a reset end the round at once |

## Left out

- `EventTriggered` and `last_update_time` (src/main.cpp:13, 24-31) depend on a wall clock and `double` arithmetic. A tick is the abstract `Tick` event.
- Drawing (`Snake::Draw`, `Food::Draw`, `Game::Draw` and the drawing calls in `main`), sound and texture loading, and the `Game`/`Food` constructors and destructors are left out. They are calls into the graphics and audio library.
- `Food::GenerateRandomCell` and `GetRandomValue` are random. Only their postcondition is kept: a cell with both coordinates in 0..24. `ResampleLoop` requires it of every draw, and `GenerateRandomPos` is any free cell.
- The window loop, `IsKeyPressed` polling and frame timing are left out. The keys of a frame are given as a set (`FrameKeys`) or as a sequence of events (`Play.Run`).
- `Vector2` has float fields and `Vector2Equals` compares with a tolerance. Every coordinate in the game is a whole number, so the model uses integers and exact equality.
- The member `food` is declared before `snake` (src/main.cpp:100-101), so `Food(snake.body)` reads a deque that has not been constructed yet. `Play.InitialGame` places the first food off the initial body, as the code evidently intends.
- The score is a C++ `int`. The model uses `nat` and does not model overflow. `Valid` bounds the score by the body length, which is at most 625.
- GameEngine.Update: in the source, a tick whose food check finds no free cell never returns. The model requires `TickTerminates` instead, and `Play.Run` reports such a tick as `Blocked`.

## Findings

| source | as written | input that shows it | evidently intended | confidence | as-written member | corrected member |
|---|---|---|---|---|---|---|
| src/main.cpp:192-195 | Left is accepted whenever the stored heading's x is not 1. After a reset the stored heading is down, (0,1), but the body lies along row 9 with the head at (6,9) and the next cell at (5,9). | After a round ends, press Left, then let one tick pass. The head moves to (5,9), which is already in the body, so the round ends again with score 0. | A key that would turn the head back onto the cell right behind it is refused. | high, not executed | `Controls.ResumeLeftAfterResetDies` | `Controls.PressGuarded` |
| src/main.cpp:182-200 | Within one frame, each guard tests the heading left by the guard before it. | Heading right, press Up and Left in the same frame. The heading becomes left, the reverse of right. | A frame's keys never reverse the heading the snake last moved in. | high, not executed | `Controls.TwoKeysReverseInOneFrame` | `Controls.PressGuarded` |

`Play.Run` takes a flag that chooses the key guard. With the guard as written, it runs the game as the source does. With the corrected guard, its contract also proves that the head never points back onto the neck. From a neck-safe start, such as the initial game or the reset state, that holds in every reached game, after any sequence of ticks and key presses.
