# High Seas Snake: the simulation engine

This project models the game engine of the High Seas Snake game (`main.py`)
without its pygame front end, and proves properties about it. The engine is a
snake on a `width x height` grid whose border is lined with obstacles. Each
tick runs these steps in order:

1. The snake moves one cell in its current direction. The move is refused on
   leaving the grid, hitting an obstacle or hitting its own body from the
   fourth cell on, unless the snake is invincible.
2. Timed power-up effects expire.
3. Food under the head is eaten. The snake grows by one, scores one point (two
   under double points), the food moves to a cell off the snake and off the
   obstacles, and the level is checked. A level-up raises the speed and adds
   one obstacle. On a low roll the power-up spawns at the centre.
4. An active power-up under the head is picked up. It applies its effect:
   speed 15, invincibility (the snake turns gold) or double points.
5. A head on an obstacle ends the game unless the snake is invincible.

A refused move ends the game at once. Every game over saves the larger of the
high score and the score.

The model follows the program's classes. `Obstacle`, `Snake`, `Food`,
`PowerUp` and `Game` are Dafny classes whose methods update their fields in
place. Each method is specified against pure functions on the state:

- `Border`: the seeded obstacle list;
- `Head`, `MoveAllowed` and `Advanced`: the move;
- `Expire` and `AllCurrent`: effect expiry;
- `FirstFree`: food placement;
- `Points`, `NextLevel` and `LevelFor`: scoring and levelling;
- `AfterExpiry`, `AfterEating`, `AfterPickup` and `TickExtras`: what one tick does to the effects, the speed and the power-up;
- `Steer`: input.

A tick is cut short when the snake eats and none of the given food draws is
free (see "## Left out"). For every tick that is not cut short, the game
keeps two invariants: the level is `score / 10 + 1`, and the food never lies
under the snake.

The things the program takes from its surroundings become parameters:

- the grid size;
- the clock value `now`;
- every random draw: the snake's first direction, the candidate food cells, the
  cell a level-up adds, the spawn roll and the kind of power-up.

Modules, one file each: `Cells` (grid geometry, directions and keys),
`Effects` (the effect map and its expiry), `Obstacles`, `Snakes`, `Foods`,
`PowerUps`, and `Engine` (the `Game` class and one tick).

Where a natural reading of the game and the code differ, the model follows
the code:

- **Self-collision.** The self-collision check skips only the first three body
  cells. So a body of three cells or fewer can never hit itself, but a
  four-cell body can: closing a 2 x 2 square lands on the tail cell, which is
  checked before it would be dropped. `Snakes.FourCellBodyCanSelfCollide`
  exhibits this case.
- **Levelling.** `update_level` is an `if`, not a loop, so one call raises the
  level by at most one. One food is worth at most two points, fewer than the
  ten-point threshold, so no threshold is ever skipped: the level stays
  `score / 10 + 1` for every tick that is not cut short (`Engine.OneCheckKeepsLevel`,
  `Engine.Game.Update`).
- **Effect flags.** The flags `invincible` and `double_points` and the colour
  are separate fields, set next to the effect map rather than derived from it.
  The snake's invariant proves they always agree with the map.
- **Speed expiry.** An expiring speed effect sets the speed back to 10, not to
  the speed the level had reached.

## Model

| member | source | states |
|---|---|---|
| Cells.Opposite | main.py:38-41 | the opposite direction's step undoes a step, from every cell |
| Cells.StepIsAdjacent | main.py:139-141 | the new head `head + direction` shares an edge with the old head |
| Cells.Steer | main.py:415-423 | an arrow key sets its direction unless that is the reverse of the current one; any other key changes nothing; the result is never a reversal |
| Engine.Game.HandleInput | main.py:415-423 | the snake's new direction is `Steer(old direction, key)`, so one key press never reverses the direction; two presses before one tick can (Up then Left while moving Right), and the head then lands on the second body cell, which the self-collision check exempts (`Snakes.ExemptCellsOnlyHitByReversal`) |
| Obstacles.BorderIsEdges | main.py:95-107 | a cell is in the seeded border list exactly when it is on the grid and on one of its four edges |
| Obstacles.BorderLength | main.py:95-107 | the border list holds 2·width + 2·height entries, each edge appended in full (corners twice) |
| Obstacles.Obstacle.constructor | main.py:91-93 | a new obstacle list is empty |
| Obstacles.Obstacle.AddEdgeObstacles | main.py:95-107 | the four loops append top row, bottom row, left column and right column, in that order, to the list |
| Obstacles.Obstacle.AddObstacle | main.py:109-112 | exactly the drawn in-bounds cell is appended, with no exclusion check |
| Snakes.Snake.constructor | main.py:120-130 | a new snake is one cell at the centre, length 1, score 0, speed 10, no effects, green, in the drawn direction |
| Snakes.Snake.IncreaseSpeed | main.py:132-133 | the speed grows by 2 |
| Snakes.Snake.Head | main.py:135-136 | the head is a cell of the body |
| Snakes.Snake.Update | main.py:138-155 | the move goes ahead exactly when `MoveAllowed` (in bounds, off obstacles and off `positions[3:]`, or invincible); then the body is `Advanced`, otherwise it is unchanged; the body stays a connected path of at most `length` cells |
| Snakes.AdvancedShape | main.py:152-155 | after a move the new head is first, the old body follows (less at most its tail), and the body grows by one until it reaches `length`, never beyond |
| Snakes.AdvancedCells | main.py:152-155 | a move adds no cell to the body but the new head |
| Snakes.AdvancedConnected | main.py:139-155 | a step to a neighbour of the head keeps the body a connected path |
| Snakes.ShortBodyNeverSelfCollides | main.py:149-150 | for a body of at most three cells, the move is refused only for bounds or obstacles |
| Snakes.FourCellBodyCanSelfCollide | main.py:149-150 | a connected four-cell body bent into a square is refused when its head steps onto its tail |
| Snakes.ExemptCellsOnlyHitByReversal | main.py:149-150 | a step from the head never lands on the head or the third cell; when the head was reached from the second cell in direction `e`, a step lands on the second cell exactly when it goes opposite to `e` |
| Snakes.Snake.ApplyPowerup | main.py:165-175 | the effect's activation time becomes `now`, overwriting any earlier one; speed becomes 15 for a speed effect; the flags and colour keep agreeing with the effect map |
| Snakes.Snake.UpdateEffects | main.py:177-191 | the effect map becomes `Expire(old map, now)`: exactly the effects more than 5000 ms old are removed; an expired speed effect sets the speed to 10; the flags and colour keep agreeing with the map |
| Effects.ExpireLeavesCurrent | main.py:177-191 | after expiry at `now` no effect is older than 5000 ms, also after one is activated at `now`; expiry removes nothing from a map whose effects are all current |
| Effects.ExpireLaterSubsumes | main.py:177-191 | expiring at an earlier clock value and then at a later one is the same as expiring once at the later one |
| Effects.ReactivationRestartsTimer | main.py:165-191 | after re-activation at `t`, an effect survives exactly while at most 5000 ms have passed since `t`, whatever its earlier time was |
| Foods.FirstFree | main.py:200-206 | the chosen cell is the first draw that is on neither the snake nor an obstacle; there is none exactly when every draw is blocked |
| Foods.Food.constructor | main.py:194-198 | a new food starts at (0, 0) and moves to the first free draw, which is on the grid and on neither the snake nor an obstacle; the sampling loop only ends on a free draw, so one is required |
| Foods.Food.RandomizePosition | main.py:200-206 | the loop settles on `FirstFree` of the draws; the food then is on the grid and on neither the snake nor an obstacle; with no free draw it stays put |
| PowerUps.PowerUp.constructor | main.py:71-77 | a new power-up is inactive at (width / 2, height / 3) with the drawn kind |
| PowerUps.PowerUp.RandomizePosition | main.py:79-83 | a spawned power-up is active at the grid's centre with the drawn kind |
| Engine.Points | main.py:442 | one food is worth two points under double points and one otherwise, so at least 1 and at most the level threshold of 10 |
| Engine.HighScoreToSave | main.py:368-371 | the saved value is the larger of the high score and the score |
| Engine.OneCheckKeepsLevel | main.py:373-378 | one level check after a food worth at most 10 points keeps the level at `score / 10 + 1` |
| Engine.Game.UpdateLevel | main.py:373-378 | the level rises by exactly one iff the score has reached `level · 10`, and then the speed grows by 2 and the obstacle list by the drawn cell; otherwise nothing changes |
| Engine.Game.SaveHighScore | main.py:368-371 | the high-score file receives `max(high score, score)` |
| Engine.Game.NewSession | main.py:322-327 | a fresh border, a one-cell snake at the centre, food at the first free draw off the snake and border, and an inactive power-up at (width / 2, height / 3), all new objects sharing one grid and one obstacle list |
| Engine.Game.Reset | main.py:322-331 | a new game: a new session, not over, not paused, level 1, high score read back from the file, the level matching the score and the food off the snake |
| Engine.Game.constructor | main.py:216-221 | the first game is set up as by a reset: new objects, the given high score in the file and in memory, both invariants established |
| Engine.Game.EatFood | main.py:439-454 | a head on the food grows the length by 1, scores 2 under double points and 1 otherwise, moves the food to the first free draw, runs one level check and spawns the power-up on a roll below 0.2; otherwise nothing changes |
| Engine.Game.Eat | main.py:440-444 | eating grows the length by 1, adds the food's points and moves the food to the first free draw |
| Engine.Game.LevelUpAndSpawn | main.py:450-454 | one level check, then the power-up spawns at the centre with the drawn kind on a roll below 0.2 |
| Engine.Game.PickUpPowerUp | main.py:456-459 | an active power-up under the head applies its kind at `now` and is used up; otherwise nothing changes |
| Engine.Game.CheckObstacle | main.py:465-468 | a head on an obstacle ends the game and saves the high score unless the snake is invincible |
| Engine.AfterExpiry | main.py:177-191 | step 2 of a tick (applied at main.py:437): afterwards no effect is older than 5000 ms |
| Engine.TickExtras | main.py:436-463 | expiry, then a level-up's speed increase and a spawn, then a pickup, applied in that order to the effects, speed and power-up; afterwards no effect is older than 5000 ms, no effect kind is active that was not active before or was just picked up, and an active power-up is not under the head |
| Engine.Game.FinishTick | main.py:436-472 | expiry, eating, pickup and the obstacle check in that order: the length, score, level, obstacles, food, game-over state, effects, speed and power-up (`TickExtras`) after a successful move; the food stays off the snake |
| Engine.Game.EatAndCheck | main.py:439-472 | eating, pickup and the obstacle check in that order, with the same results as `FinishTick` once the effects have expired |
| Engine.Game.Update | main.py:425-472 | one tick: a refused move ends the game, saves `max(high score, score)` and changes nothing else; otherwise the body moves as `Snake.Update` says, eating grows length and score, the food moves only when eaten, and effects, speed and power-up follow `TickExtras`, so no effect older than 5000 ms survives; score never falls and the level rises by at most one; for every tick that is not cut short, the level stays `score / 10 + 1` and the food stays off the snake; the high-score file changes only when this tick's obstacle check or refused move ends the game |

## Left out

- Rendering, surfaces, colours other than the snake's, fonts, images and sounds: drawing has no effect on the game state.
- The run loop, event polling, the pause toggle and frame pacing by `clock.tick`: the pause flag is reset by a new game but never toggled in the model, and the game only ticks while unpaused.
- The screen-derived constants: the grid's width and height are parameters of at least 1.
- High-score file I/O: the file is a field `highScoreFile`. Reading it (including the fallback to 0 on a missing or malformed file) is the value the field holds.
- The clock and the random generator: `now` and every draw are parameters. One `now` serves both clock reads of a tick (effect expiry and power-up pickup).
- Foods.Food.RandomizePosition: the source keeps drawing forever. The model takes a finite list of draws and reports when none is free; `Engine.Game.Update` then ends the tick early, which the source never does, and the food-off-snake and level-matches-score invariants are promised only for ticks that were not cut short (a cut-short tick still adds the food's points but runs no level check).
- Foods.Food.constructor: requires a free cell among the draws, because the source's loop only ends on one; the same holds for `Engine.Game.NewSession`, `Engine.Game.Reset` and `Engine.Game.constructor`.
- The unused `duration` and `start_time` fields of the power-up.
- Key handling over several presses: the run loop applies every pending key press before the next tick, so two presses between ticks can reverse the snake; only a single press is modelled.
