/** The game session and its per-tick state transition: move, expire
    effects, eat, level up, pick up a power-up, and check for a crash. */
module Engine {
  import opened Cells
  import opened Effects
  import opened Obstacles
  import opened Snakes
  import opened Foods
  import opened PowerUps

  const LevelScoreThreshold := 10
  /** After eating, a power-up spawns when a roll drawn from [0, 1) is below
      this. */
  const SpawnChance := 0.2

  /** Points for one food: two under double points, otherwise one; never
      more than the level threshold, so one food crosses at most one. */
  function Points(doublePoints: bool): (r: int)
    ensures 1 <= r <= LevelScoreThreshold
    ensures r == 2 <==> doublePoints
  {
    if doublePoints then 2 else 1
  }

  /** The level after one level check at `score`: one up when the score has
      reached the current level's threshold. */
  function NextLevel(score: int, level: int): int {
    if score >= level * LevelScoreThreshold then level + 1 else level
  }

  /** The level a score belongs to when every threshold is crossed exactly
      once: 1 below 10 points, 2 below 20, and so on. */
  function LevelFor(score: int): int {
    score / LevelScoreThreshold + 1
  }

  /** The value written to the high-score file at the end of a game. */
  function HighScoreToSave(highScore: int, score: int): (r: int)
    ensures r >= highScore && r >= score
    ensures r == highScore || r == score
  {
    if score > highScore then score else highScore
  }

  /** What a tick changes besides the body, the food, the score and the
      level: the snake's effects and speed, and the power-up. */
  datatype Extras = Extras(effects: EffectTimes, speed: int, powerupAt: Cell, powerupActive: bool, powerupKind: EffectKind)

  /** Step 2 of a tick on `e`: the effects expire at `now`, and an expired
      speed effect sets the speed to the initial speed. */
  function AfterExpiry(e: Extras, now: int): (r: Extras)
    ensures AllCurrent(r.effects, now)
  {
    var current := Expire(e.effects, now);
    ExpireLeavesCurrent(e.effects, now, Speed);
    e.(effects := current, speed := if Speed in e.effects && Speed !in current then InitialSpeed else e.speed)
  }

  /** The rest of step 3 of a tick on `e`: a level-up adds to the speed, and
      the power-up spawns at the centre with kind `spawnKind` when `spawns`. */
  function AfterEating(e: Extras, g: Grid, spawns: bool, levelUp: bool, spawnKind: EffectKind): Extras {
    e.(speed := if levelUp then e.speed + SpeedIncrement else e.speed,
       powerupAt := if spawns then g.Centre() else e.powerupAt,
       powerupActive := spawns || e.powerupActive,
       powerupKind := if spawns then spawnKind else e.powerupKind)
  }

  /** Step 4 of a tick on `e`: an active power-up under the head `head` is
      used up and applies its kind at `now`. */
  function AfterPickup(e: Extras, head: Cell, now: int): Extras {
    if e.powerupActive && head == e.powerupAt then
      e.(effects := e.effects[e.powerupKind := now],
         speed := if e.powerupKind == Speed then BoostedSpeed else e.speed,
         powerupActive := false)
    else e
  }

  /** Steps 2 to 4 of a tick on `e`, for a snake whose new head is `head`.
      The power-up spawns when the snake ate (`eats`), some food draw was
      free (not `exhausted`) and the roll is low. An exhausted tick stops
      after eating. Afterwards no effect is older than `EffectDuration`, no
      effect kind is active that was not active before or just picked up,
      and an active power-up is not under the head. */
  function TickExtras(e: Extras, g: Grid, head: Cell, now: int, eats: bool, exhausted: bool, levelUp: bool,
                      spawnRoll: real, spawnKind: EffectKind): (r: Extras)
    ensures AllCurrent(r.effects, now)
    ensures var mid := AfterEating(AfterExpiry(e, now), g, eats && !exhausted && spawnRoll < SpawnChance, levelUp, spawnKind);
      var picked := !exhausted && mid.powerupActive && head == mid.powerupAt;
      r.effects.Keys <= e.effects.Keys + (if picked then {mid.powerupKind} else {})
    ensures !exhausted && r.powerupActive ==> r.powerupAt != head
  {
    var r := EatAndPickup(AfterExpiry(e, now), g, head, now, eats && !exhausted && spawnRoll < SpawnChance,
                          exhausted, levelUp, spawnKind);
    ExpireLeavesCurrent(e.effects, now, r.powerupKind);
    r
  }

  /** Steps 3 and 4 of a tick on `e`; step 4 is skipped in an exhausted tick. */
  function EatAndPickup(e: Extras, g: Grid, head: Cell, now: int, spawns: bool, exhausted: bool, levelUp: bool,
                        spawnKind: EffectKind): Extras {
    var eaten := AfterEating(e, g, spawns, levelUp, spawnKind);
    if exhausted then eaten else AfterPickup(eaten, head, now)
  }

  /** A single level check per food is enough: one food is worth at most the
      threshold, so a score that is on its level stays on its level after
      one check, and no threshold is skipped. */
  lemma {:induction false} OneCheckKeepsLevel(score: int, points: int)
    requires score >= 0 && 0 <= points <= LevelScoreThreshold
    ensures NextLevel(score + points, LevelFor(score)) == LevelFor(score + points)
  {
    var level := LevelFor(score);
    assert (level - 1) * LevelScoreThreshold <= score < level * LevelScoreThreshold;
    if score + points >= level * LevelScoreThreshold {
      assert level * LevelScoreThreshold <= score + points < (level + 1) * LevelScoreThreshold;
    }
  }

  class Game {
    const grid: Grid
    var obstacle: Obstacle
    var snake: Snake
    var food: Food
    var powerup: PowerUp
    var gameOver: bool
    var paused: bool
    var highScore: int
    /** What the high-score file holds: read at every reset, written at
        every crash. */
    var highScoreFile: int
    var level: int

    /** The objects of one session share one grid and one obstacle list. */
    ghost predicate Valid()
      reads this, snake
    {
      && grid.Valid()
      && snake.obstacle == obstacle && food.snake == snake && food.obstacle == obstacle
      && snake.grid == grid && obstacle.grid == grid && food.grid == grid && powerup.grid == grid
      && snake.Valid()
    }

    /** The food is not under the snake. */
    ghost predicate FoodOffSnake()
      reads this, snake, food
    {
      food.position !in snake.positions
    }

    /** The current effects, speed and power-up. */
    function Extra(): Extras
      reads this, snake, powerup
    {
      Extras(snake.effects, snake.speed, powerup.position, powerup.active, powerup.kind)
    }

    /** The level is the one the score belongs to. */
    ghost predicate LevelMatchesScore()
      reads this, snake
    {
      level == LevelFor(snake.score)
    }

    // The tick, stated on the state before it.

    ghost function NextHead(): Cell
      reads this, snake
      requires Valid()
    {
      Step(snake.positions[0], snake.direction)
    }

    ghost predicate MoveSucceeds()
      reads this, snake, obstacle
      requires Valid()
    {
      MoveAllowed(grid, snake.positions, NextHead(), obstacle.positions, snake.invincible)
    }

    ghost function BodyAfterMove(): seq<Cell>
      reads this, snake, obstacle
      requires Valid()
    {
      if MoveSucceeds() then Advanced(snake.positions, NextHead(), snake.length) else snake.positions
    }

    ghost predicate Eats()
      reads this, snake, obstacle, food
      requires Valid()
    {
      MoveSucceeds() && NextHead() == food.position
    }

    /** The tick runs to its end: it does not eat, or a food draw is free. */
    ghost predicate Completes(draws: seq<Cell>)
      reads this, snake, obstacle, food
      requires Valid()
    {
      !Eats() || FirstFree(draws, BodyAfterMove(), obstacle.positions).Some?
    }

    /** A new game: the border, a one-cell snake at the centre, food at the
        first free draw, an inactive power-up, level 1 and the high score
        read back from the file. */
    constructor (grid: Grid, savedHighScore: int, direction: Direction, foodDraws: seq<Cell>, kind: EffectKind)
      requires grid.Valid()
      requires forall c :: c in foodDraws ==> grid.InBounds(c)
      requires FirstFree(foodDraws, [grid.Centre()], Border(grid)).Some?
      ensures Valid() && LevelMatchesScore() && FoodOffSnake()
      ensures this.grid == grid && highScoreFile == savedHighScore && highScore == savedHighScore
      ensures fresh(obstacle) && fresh(snake) && fresh(food) && fresh(powerup)
      ensures obstacle.positions == Border(grid)
      ensures snake.positions == [grid.Centre()] && snake.length == 1 && snake.direction == direction
      ensures snake.score == 0 && snake.speed == InitialSpeed && snake.effects == map[]
      ensures food.position == FirstFree(foodDraws, [grid.Centre()], Border(grid)).value
      ensures !powerup.active && powerup.kind == kind
      ensures powerup.position == Cell(grid.width / 2, grid.height / 3)
      ensures !gameOver && !paused && level == 1
    {
      this.grid := grid;
      highScoreFile := savedHighScore;
      var o, s, f, p := NewSession(grid, direction, foodDraws, kind);
      obstacle, snake, food, powerup := o, s, f, p;
      gameOver, paused := false, false;
      highScore := savedHighScore;
      level := 1;
    }

    /** The objects of a fresh session, built in the order the game builds
        them: the food avoids the new snake and the border. */
    static method NewSession(grid: Grid, direction: Direction, foodDraws: seq<Cell>, kind: EffectKind)
      returns (obstacle: Obstacle, snake: Snake, food: Food, powerup: PowerUp)
      requires grid.Valid()
      requires forall c :: c in foodDraws ==> grid.InBounds(c)
      requires FirstFree(foodDraws, [grid.Centre()], Border(grid)).Some?
      ensures fresh(obstacle) && fresh(snake) && fresh(food) && fresh(powerup)
      ensures obstacle.grid == grid && obstacle.positions == Border(grid)
      ensures snake.Valid() && snake.grid == grid && snake.obstacle == obstacle
      ensures snake.positions == [grid.Centre()] && snake.length == 1 && snake.direction == direction
      ensures snake.score == 0 && snake.speed == InitialSpeed && snake.effects == map[]
      ensures food.grid == grid && food.snake == snake && food.obstacle == obstacle
      ensures food.position !in snake.positions && food.position !in obstacle.positions
      ensures food.position == FirstFree(foodDraws, [grid.Centre()], Border(grid)).value
      ensures powerup.grid == grid && !powerup.active && powerup.kind == kind
      ensures powerup.position == Cell(grid.width / 2, grid.height / 3)
    {
      obstacle := new Obstacle(grid);
      obstacle.AddEdgeObstacles();
      snake := new Snake(grid, obstacle, direction);
      food := new Food(grid, snake, obstacle, foodDraws);
      powerup := new PowerUp(grid, kind);
    }

    /** Starts a new game; only the high-score file survives. */
    method Reset(direction: Direction, foodDraws: seq<Cell>, kind: EffectKind)
      requires grid.Valid()
      requires forall c :: c in foodDraws ==> grid.InBounds(c)
      requires FirstFree(foodDraws, [grid.Centre()], Border(grid)).Some?
      modifies this
      ensures Valid() && LevelMatchesScore() && FoodOffSnake()
      ensures fresh(obstacle) && fresh(snake) && fresh(food) && fresh(powerup)
      ensures highScoreFile == old(highScoreFile) && highScore == highScoreFile
      ensures obstacle.positions == Border(grid)
      ensures snake.positions == [grid.Centre()] && snake.length == 1 && snake.direction == direction
      ensures snake.score == 0 && snake.speed == InitialSpeed && snake.effects == map[]
      ensures food.position == FirstFree(foodDraws, [grid.Centre()], Border(grid)).value
      ensures !powerup.active && powerup.kind == kind
      ensures powerup.position == Cell(grid.width / 2, grid.height / 3)
      ensures !gameOver && !paused && level == 1
    {
      var o, s, f, p := NewSession(grid, direction, foodDraws, kind);
      obstacle, snake, food, powerup := o, s, f, p;
      gameOver := false;
      paused := false;
      highScore := highScoreFile;
      level := 1;
    }

    method SaveHighScore()
      modifies this`highScoreFile
      ensures highScoreFile == HighScoreToSave(highScore, snake.score)
    {
      highScoreFile := HighScoreToSave(highScore, snake.score);
    }

    /** One level check: at most one level per call. */
    method UpdateLevel(cell: Cell)
      requires Valid() && grid.InBounds(cell)
      modifies this`level, snake`speed, obstacle`positions
      ensures Valid()
      ensures level == old(level) || level == old(level) + 1
      ensures level == old(level) + 1 <==> snake.score >= old(level) * LevelScoreThreshold
      ensures level == NextLevel(snake.score, old(level))
      ensures snake.speed == if level > old(level) then old(snake.speed) + SpeedIncrement else old(snake.speed)
      ensures obstacle.positions == if level > old(level) then old(obstacle.positions) + [cell] else old(obstacle.positions)
    {
      if snake.score >= level * LevelScoreThreshold {
        level := level + 1;
        snake.IncreaseSpeed();
        obstacle.AddObstacle(cell);
      }
    }

    /** An arrow key turns the snake unless it asks for a direct reversal. */
    method HandleInput(key: Key)
      requires Valid()
      modifies snake`direction
      ensures Valid()
      ensures snake.direction == Steer(old(snake.direction), key)
      ensures snake.direction != Opposite(old(snake.direction))
    {
      if key == Arrow(Up) && snake.direction != Down {
        snake.direction := Up;
      } else if key == Arrow(Down) && snake.direction != Up {
        snake.direction := Down;
      } else if key == Arrow(Left) && snake.direction != Right {
        snake.direction := Left;
      } else if key == Arrow(Right) && snake.direction != Left {
        snake.direction := Right;
      }
    }

    /** The head is on the food. */
    ghost predicate OnFood()
      reads this, snake, food
      requires Valid()
    {
      snake.positions[0] == food.position
    }

    /** Third step of a tick: eating the food under the head grows the target
        length by one, scores, moves the food, checks the level and, on a low
        roll, spawns the power-up. `exhausted` is true, and the step stops
        after the failed move of the food, when no food draw is free. */
    method EatFood(foodDraws: seq<Cell>, obstacleCell: Cell, spawnRoll: real, spawnKind: EffectKind)
      returns (exhausted: bool)
      requires Valid()
      requires forall c :: c in foodDraws ==> grid.InBounds(c)
      requires grid.InBounds(obstacleCell)
      modifies this`level, snake`length, snake`score, snake`speed, food`position, obstacle`positions
      modifies powerup`position, powerup`active, powerup`kind
      ensures Valid()
      ensures var eats := old(OnFood());
        && snake.length == old(snake.length) + (if eats then 1 else 0)
        && snake.score == old(snake.score) + (if eats then Points(snake.doublePoints) else 0)
        && exhausted == (eats && FirstFree(foodDraws, snake.positions, old(obstacle.positions)).None?)
        && food.position == (if eats && !exhausted then FirstFree(foodDraws, snake.positions, old(obstacle.positions)).value
                             else old(food.position))
        && level == (if eats && !exhausted then NextLevel(snake.score, old(level)) else old(level))
      ensures obstacle.positions == if level > old(level) then old(obstacle.positions) + [obstacleCell] else old(obstacle.positions)
      ensures snake.speed == if level > old(level) then old(snake.speed) + SpeedIncrement else old(snake.speed)
      ensures var spawns := old(OnFood()) && !exhausted && spawnRoll < SpawnChance;
        && powerup.position == (if spawns then grid.Centre() else old(powerup.position))
        && powerup.kind == (if spawns then spawnKind else old(powerup.kind))
        && powerup.active == (spawns || old(powerup.active))
        && Extra() == AfterEating(old(Extra()), grid, spawns, level > old(level), spawnKind)
    {
      exhausted := false;
      if snake.Head() == food.position {
        var found := Eat(foodDraws);
        if !found {
          return true;
        }
        LevelUpAndSpawn(obstacleCell, spawnRoll, spawnKind);
      }
    }

    /** The food under the head is eaten: the target length grows by one,
        the score by the food's points, and the food moves to the first free
        draw; `found` is false when there is none. */
    method Eat(foodDraws: seq<Cell>) returns (found: bool)
      requires Valid()
      requires forall c :: c in foodDraws ==> grid.InBounds(c)
      modifies snake`length, snake`score, food`position
      ensures Valid()
      ensures snake.length == old(snake.length) + 1
      ensures snake.score == old(snake.score) + Points(snake.doublePoints)
      ensures found == FirstFree(foodDraws, snake.positions, obstacle.positions).Some?
      ensures food.position == if found then FirstFree(foodDraws, snake.positions, obstacle.positions).value
                               else old(food.position)
    {
      snake.length := snake.length + 1;
      var points := if snake.doublePoints then 2 else 1;
      snake.score := snake.score + points;
      found := food.RandomizePosition(foodDraws);
    }

    /** The end of eating: one level check, then the power-up spawns on a
        roll below `SpawnChance`. */
    method LevelUpAndSpawn(obstacleCell: Cell, spawnRoll: real, spawnKind: EffectKind)
      requires Valid() && grid.InBounds(obstacleCell)
      modifies this`level, snake`speed, obstacle`positions, powerup`position, powerup`active, powerup`kind
      ensures Valid()
      ensures level == NextLevel(snake.score, old(level))
      ensures obstacle.positions == if level > old(level) then old(obstacle.positions) + [obstacleCell] else old(obstacle.positions)
      ensures Extra() == AfterEating(old(Extra()), grid, spawnRoll < SpawnChance, level > old(level), spawnKind)
    {
      UpdateLevel(obstacleCell);
      if spawnRoll < SpawnChance {
        powerup.RandomizePosition(spawnKind);
      }
    }

    /** Fourth step of a tick: an active power-up under the head applies its
        effect at clock value `now` and is used up. */
    method PickUpPowerUp(now: int)
      requires Valid()
      modifies snake`speed, snake`invincible, snake`colour, snake`doublePoints, snake`effects, powerup`active
      ensures Valid()
      ensures var picks := old(powerup.active) && old(snake.positions[0] == powerup.position);
        && powerup.active == (old(powerup.active) && !picks)
        && snake.effects == (if picks then old(snake.effects)[powerup.kind := now] else old(snake.effects))
        && snake.speed == (if picks && powerup.kind == Speed then BoostedSpeed else old(snake.speed))
      ensures Extra() == AfterPickup(old(Extra()), snake.positions[0], now)
    {
      if powerup.active && snake.Head() == powerup.position {
        snake.ApplyPowerup(powerup.kind, now);
        powerup.active := false;
      }
    }

    /** Last step of a tick: a head on an obstacle ends the game unless the
        snake is invincible. */
    method CheckObstacle()
      requires Valid()
      modifies this`gameOver, this`highScoreFile
      ensures var crashed := snake.positions[0] in obstacle.positions && !snake.invincible;
        && gameOver == (old(gameOver) || crashed)
        && highScoreFile == (if crashed then HighScoreToSave(highScore, snake.score) else old(highScoreFile))
    {
      if snake.Head() in obstacle.positions && !snake.invincible {
        gameOver := true;
        SaveHighScore();
      }
    }

    /** One tick at clock value `now`. The random draws of the tick are
        parameters: the food cells tried in turn, the cell a level-up adds to
        the obstacles, the spawn roll and the kind of a spawned power-up.
        `drawsExhausted` is true when the snake ate and no food draw was
        free; the tick then stops after moving the food would have been
        attempted. */
    method Update(now: int, foodDraws: seq<Cell>, obstacleCell: Cell, spawnRoll: real, spawnKind: EffectKind)
      returns (drawsExhausted: bool)
      requires Valid()
      requires forall c :: c in foodDraws ==> grid.InBounds(c)
      requires grid.InBounds(obstacleCell)
      modifies this, obstacle, snake, food, powerup
      ensures Valid()
      ensures obstacle == old(obstacle) && snake == old(snake) && food == old(food) && powerup == old(powerup)
      ensures highScore == old(highScore) && paused == old(paused) && snake.direction == old(snake.direction)
      // A refused move ends the game and changes nothing else but the file.
      ensures !old(MoveSucceeds()) ==>
        && gameOver && !drawsExhausted
        && highScoreFile == HighScoreToSave(highScore, old(snake.score))
        && unchanged(snake) && unchanged(food) && unchanged(obstacle) && unchanged(powerup) && level == old(level)
      // Otherwise the snake moves, and eats when its new head is on the food.
      ensures snake.positions == old(BodyAfterMove())
      ensures snake.length == old(snake.length) + (if old(Eats()) then 1 else 0)
      ensures snake.score == old(snake.score)
        + (if old(Eats()) then Points(DoublePoints in Expire(old(snake.effects), now)) else 0)
      ensures drawsExhausted == !old(Completes(foodDraws))
      // The level check after eating, and what a level-up adds.
      ensures level == if old(Eats()) && !drawsExhausted then NextLevel(snake.score, old(level)) else old(level)
      ensures obstacle.positions == if level > old(level) then old(obstacle.positions) + [obstacleCell] else old(obstacle.positions)
      ensures gameOver == (old(gameOver) || !old(MoveSucceeds())
        || (!drawsExhausted && snake.positions[0] in obstacle.positions && !snake.invincible))
      ensures gameOver && !old(gameOver) ==> highScoreFile == HighScoreToSave(highScore, snake.score)
      ensures !gameOver ==> highScoreFile == old(highScoreFile)
      ensures old(MoveSucceeds()) ==>
        var crashed := !drawsExhausted && snake.positions[0] in obstacle.positions && !snake.invincible;
        highScoreFile == if crashed then HighScoreToSave(highScore, snake.score) else old(highScoreFile)
      // Score and level never go down; at most one level per tick.
      ensures snake.score >= old(snake.score)
      ensures old(level) <= level <= old(level) + 1
      ensures !drawsExhausted && old(LevelMatchesScore()) ==> LevelMatchesScore()
      // The food moves only when eaten, and never lies under the snake.
      ensures food.position == if old(Eats()) && !drawsExhausted
        then FirstFree(foodDraws, snake.positions, old(obstacle.positions)).value else old(food.position)
      ensures !drawsExhausted && old(FoodOffSnake()) ==> FoodOffSnake()
      // The effects, the speed and the power-up after a move; no effect
      // older than `EffectDuration` survives it.
      ensures old(MoveSucceeds()) ==>
        Extra() == TickExtras(old(Extra()), grid, snake.positions[0], now, old(Eats()), drawsExhausted,
                              level > old(level), spawnRoll, spawnKind)
      ensures old(MoveSucceeds()) ==> AllCurrent(snake.effects, now)
    {
      ghost var succeeds, body := MoveSucceeds(), BodyAfterMove();
      ghost var head, oldBody, foodOff := NextHead(), snake.positions, FoodOffSnake();
      ghost var eats, completes := Eats(), Completes(foodDraws);
      ghost var expired := Expire(snake.effects, now);
      var ok := snake.Update();
      assert ok == succeeds && snake.positions == body;
      if !ok && !snake.invincible {
        gameOver := true;
        SaveHighScore();
        return false;
      }
      assert OnFood() == eats;
      AdvancedCells(oldBody, head, snake.length);
      assert foodOff ==> FoodOffSnake() || OnFood();
      assert FirstFree(foodDraws, snake.positions, obstacle.positions).Some? == completes || !eats;
      drawsExhausted := FinishTick(now, foodDraws, obstacleCell, spawnRoll, spawnKind);
    }

    /** The tick after a successful move: effects expire, then the food, the
        power-up and the obstacles are checked in turn. */
    method FinishTick(now: int, foodDraws: seq<Cell>, obstacleCell: Cell, spawnRoll: real, spawnKind: EffectKind)
      returns (drawsExhausted: bool)
      requires Valid()
      requires forall c :: c in foodDraws ==> grid.InBounds(c)
      requires grid.InBounds(obstacleCell)
      modifies this`level, this`gameOver, this`highScoreFile, obstacle`positions, food`position
      modifies snake`length, snake`score, snake`speed, snake`invincible, snake`colour, snake`doublePoints, snake`effects
      modifies powerup`position, powerup`active, powerup`kind
      ensures Valid()
      ensures var eats := old(OnFood());
        && snake.length == old(snake.length) + (if eats then 1 else 0)
        && snake.score == old(snake.score) + (if eats then Points(DoublePoints in Expire(old(snake.effects), now)) else 0)
        && drawsExhausted == (eats && FirstFree(foodDraws, snake.positions, old(obstacle.positions)).None?)
        && level == (if eats && !drawsExhausted then NextLevel(snake.score, old(level)) else old(level))
      ensures obstacle.positions == if level > old(level) then old(obstacle.positions) + [obstacleCell] else old(obstacle.positions)
      ensures var crashed := !drawsExhausted && snake.positions[0] in obstacle.positions && !snake.invincible;
        && gameOver == (old(gameOver) || crashed)
        && highScoreFile == (if crashed then HighScoreToSave(highScore, snake.score) else old(highScoreFile))
      ensures !drawsExhausted && old(LevelMatchesScore()) ==> LevelMatchesScore()
      ensures food.position == if old(OnFood()) && !drawsExhausted
        then FirstFree(foodDraws, snake.positions, old(obstacle.positions)).value else old(food.position)
      ensures old(OnFood()) && !drawsExhausted ==> food.position !in snake.positions && food.position !in old(obstacle.positions)
      ensures !drawsExhausted && old(FoodOffSnake() || OnFood()) ==> FoodOffSnake()
      ensures Extra() == TickExtras(old(Extra()), grid, snake.positions[0], now, old(OnFood()), drawsExhausted,
                                    level > old(level), spawnRoll, spawnKind)
    {
      ghost var eats, extra := OnFood(), Extra();
      snake.UpdateEffects(now);
      assert OnFood() == eats && Extra() == AfterExpiry(extra, now);
      drawsExhausted := EatAndCheck(now, foodDraws, obstacleCell, spawnRoll, spawnKind);
    }

    /** Steps 3 to 5 of a tick: the food, the power-up and the obstacles are
        checked in turn; an exhausted tick stops after eating. This method has
        no counterpart in the game: it splits `FinishTick` only to keep each
        proof small, so its contract repeats most of `FinishTick`'s. */
    method EatAndCheck(now: int, foodDraws: seq<Cell>, obstacleCell: Cell, spawnRoll: real, spawnKind: EffectKind)
      returns (drawsExhausted: bool)
      requires Valid()
      requires forall c :: c in foodDraws ==> grid.InBounds(c)
      requires grid.InBounds(obstacleCell)
      modifies this`level, this`gameOver, this`highScoreFile, obstacle`positions, food`position
      modifies snake`length, snake`score, snake`speed, snake`invincible, snake`colour, snake`doublePoints, snake`effects
      modifies powerup`position, powerup`active, powerup`kind
      ensures Valid()
      ensures var eats := old(OnFood());
        && snake.length == old(snake.length) + (if eats then 1 else 0)
        && snake.score == old(snake.score) + (if eats then Points(old(snake.doublePoints)) else 0)
        && drawsExhausted == (eats && FirstFree(foodDraws, snake.positions, old(obstacle.positions)).None?)
        && level == (if eats && !drawsExhausted then NextLevel(snake.score, old(level)) else old(level))
      ensures obstacle.positions == if level > old(level) then old(obstacle.positions) + [obstacleCell] else old(obstacle.positions)
      ensures var crashed := !drawsExhausted && snake.positions[0] in obstacle.positions && !snake.invincible;
        && gameOver == (old(gameOver) || crashed)
        && highScoreFile == (if crashed then HighScoreToSave(highScore, snake.score) else old(highScoreFile))
      ensures !drawsExhausted && old(LevelMatchesScore()) ==> LevelMatchesScore()
      ensures food.position == if old(OnFood()) && !drawsExhausted
        then FirstFree(foodDraws, snake.positions, old(obstacle.positions)).value else old(food.position)
      ensures old(OnFood()) && !drawsExhausted ==> food.position !in snake.positions && food.position !in old(obstacle.positions)
      ensures !drawsExhausted && old(FoodOffSnake() || OnFood()) ==> FoodOffSnake()
      ensures Extra() == EatAndPickup(old(Extra()), grid, snake.positions[0], now,
                                      old(OnFood()) && !drawsExhausted && spawnRoll < SpawnChance,
                                      drawsExhausted, level > old(level), spawnKind)
    {
      ghost var score := snake.score;
      drawsExhausted := EatFood(foodDraws, obstacleCell, spawnRoll, spawnKind);
      if drawsExhausted {
        return;
      }
      if snake.score != score {
        OneCheckKeepsLevel(score, snake.score - score);
      }
      ghost var eaten := Extra();
      PickUpPowerUp(now);
      assert Extra() == AfterPickup(eaten, snake.positions[0], now);
      CheckObstacle();
    }
  }
}
