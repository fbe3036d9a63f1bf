/** The snake: its body (head first), its direction, its target length, its
    score and speed, and the timed effects it carries. */
module Snakes {
  import opened Cells
  import opened Effects
  import Obstacles

  const InitialSpeed := 10
  const SpeedIncrement := 2
  /** The speed a speed power-up sets, whatever the level. */
  const BoostedSpeed := 15

  /** The snake's body colour: gold while invincible. */
  datatype Colour = Green | Gold

  /** The part of the body a new head is checked against: everything from
      the fourth cell on (empty for a body of at most three cells). */
  function SelfChecked(body: seq<Cell>): seq<Cell> {
    if |body| <= 3 then [] else body[3..]
  }

  /** Whether a move whose new head is `head` goes ahead: an invincible snake
      always moves; otherwise the new head must be on the grid, off every
      obstacle and off the self-checked part of the body. */
  predicate MoveAllowed(g: Grid, body: seq<Cell>, head: Cell, obstacles: seq<Cell>, invincible: bool) {
    invincible || (g.InBounds(head) && head !in obstacles && head !in SelfChecked(body))
  }

  /** The body after a successful move: the new head in front, the tail cell
      dropped once the body is longer than `length`. */
  function Advanced(body: seq<Cell>, head: Cell, length: int): seq<Cell> {
    var grown := [head] + body;
    if |grown| > length then grown[..|grown| - 1] else grown
  }

  /** Consecutive body cells share an edge. */
  ghost predicate Connected(body: seq<Cell>) {
    forall i :: 0 < i < |body| ==> Adjacent(body[i - 1], body[i])
  }

  /** A successful move puts the new head in front of the old body, keeps the
      old body behind it (losing at most the tail cell) and grows the body by
      one cell until it reaches `length`, never beyond. */
  lemma AdvancedShape(body: seq<Cell>, head: Cell, length: int)
    requires 1 <= |body| <= length
    ensures var r := Advanced(body, head, length);
      && |r| == (if |body| < length then |body| + 1 else length)
      && r[0] == head
      && r[1..] == body[..|r| - 1]
  {
  }

  /** A move adds no cell but the new head. */
  lemma AdvancedCells(body: seq<Cell>, head: Cell, length: int)
    ensures forall c :: c in Advanced(body, head, length) ==> c == head || c in body
  {
  }

  /** A move to a neighbour of the head keeps the body a connected path. */
  lemma {:induction false} AdvancedConnected(body: seq<Cell>, head: Cell, length: int)
    requires |body| >= 1 && Connected(body) && Adjacent(head, body[0])
    ensures Connected(Advanced(body, head, length))
  {
    var grown := [head] + body;
    forall i | 0 < i < |grown|
      ensures Adjacent(grown[i - 1], grown[i])
    {
      if i > 1 {
        assert grown[i - 1] == body[i - 2] && grown[i] == body[i - 1];
      }
    }
    var r := Advanced(body, head, length);
    forall i | 0 < i < |r|
      ensures Adjacent(r[i - 1], r[i])
    {
      assert r[i - 1] == grown[i - 1] && r[i] == grown[i];
    }
  }

  /** A body of at most three cells is never hit by the self-collision check. */
  lemma ShortBodyNeverSelfCollides(g: Grid, body: seq<Cell>, head: Cell, obstacles: seq<Cell>, invincible: bool)
    requires |body| <= 3
    ensures MoveAllowed(g, body, head, obstacles, invincible) <==> invincible || (g.InBounds(head) && head !in obstacles)
  {
  }

  /** A four-cell body can hit itself: the head closing a 2 x 2 square lands
      on the tail cell, which is checked before it would be dropped. */
  lemma FourCellBodyCanSelfCollide()
    ensures var body := [Cell(1, 1), Cell(1, 2), Cell(2, 2), Cell(2, 1)];
      && Connected(body)
      && !MoveAllowed(Grid(10, 10), body, Step(body[0], Right), [], false)
  {
    var body := [Cell(1, 1), Cell(1, 2), Cell(2, 2), Cell(2, 1)];
    assert Step(body[0], Right) == body[3];
    assert SelfChecked(body) == [body[3]];
  }

  /** The three cells exempt from the self-collision check cost nothing
      except a reversal: a step from the head of a connected body can never
      land on the head itself or on the third cell, and, when the head was
      reached from the second cell in direction `e`, lands on the second
      cell exactly when it goes the opposite way. */
  lemma {:induction false} ExemptCellsOnlyHitByReversal(body: seq<Cell>, d: Direction, e: Direction)
    requires |body| >= 1 && Connected(body)
    ensures var head := Step(body[0], d);
      && head != body[0]
      && (|body| >= 3 ==> head != body[2])
      && (|body| >= 2 && body[0] == Step(body[1], e) ==> (head == body[1] <==> d == Opposite(e)))
  {
    var head := Step(body[0], d);
    StepIsAdjacent(body[0], d);
    AdjacentFlipsParity(head, body[0]);
    if |body| >= 3 {
      AdjacentFlipsParity(body[0], body[1]);
      AdjacentFlipsParity(body[1], body[2]);
    }
  }

  class Snake {
    const grid: Grid
    const obstacle: Obstacles.Obstacle
    var length: int
    var positions: seq<Cell>
    var direction: Direction
    var colour: Colour
    var score: int
    var speed: int
    var invincible: bool
    var doublePoints: bool
    var effects: EffectTimes

    /** The body is a non-empty connected path no longer than `length`; the
        score is never negative; the two flags and the colour always agree
        with the effect map. */
    ghost predicate Valid()
      reads this
    {
      && 1 <= |positions| <= length
      && Connected(positions)
      && score >= 0
      && FlagsAgree()
    }

    ghost predicate FlagsAgree()
      reads this
    {
      && invincible == (Invincibility in effects)
      && doublePoints == (DoublePoints in effects)
      && (colour == Gold) == invincible
    }

    constructor (grid: Grid, obstacle: Obstacles.Obstacle, direction: Direction)
      ensures Valid()
      ensures this.grid == grid && this.obstacle == obstacle && this.direction == direction
      ensures length == 1 && positions == [grid.Centre()]
      ensures score == 0 && speed == InitialSpeed && effects == map[]
    {
      this.grid := grid;
      this.obstacle := obstacle;
      length := 1;
      positions := [grid.Centre()];
      this.direction := direction;
      colour := Green;
      score := 0;
      speed := InitialSpeed;
      invincible := false;
      doublePoints := false;
      effects := map[];
    }

    /** The head cell: the front of the body. */
    function Head(): (r: Cell)
      reads this
      requires Valid()
      ensures r in positions
    {
      positions[0]
    }

    method IncreaseSpeed()
      modifies this`speed
      ensures speed == old(speed) + SpeedIncrement
    {
      speed := speed + SpeedIncrement;
    }

    /** One step in the current direction. Returns false, leaving the body
        as it was, when the move is refused. */
    method Update() returns (ok: bool)
      requires Valid()
      modifies this`positions
      ensures Valid()
      ensures var head := Step(old(positions)[0], direction);
        && ok == MoveAllowed(grid, old(positions), head, obstacle.positions, invincible)
        && positions == if ok then Advanced(old(positions), head, length) else old(positions)
    {
      var cur := positions[0];
      var next := Step(cur, direction);
      if (!grid.InBounds(next) || next in obstacle.positions) && !invincible {
        return false;
      }
      if next in SelfChecked(positions) && !invincible {
        return false;
      }
      StepIsAdjacent(cur, direction);
      AdvancedConnected(positions, next, length);
      positions := [next] + positions;
      if |positions| > length {
        positions := positions[..|positions| - 1];
      }
      return true;
    }

    /** Activates (or re-activates) effect `kind` at clock value `now`. */
    method ApplyPowerup(kind: EffectKind, now: int)
      requires Valid()
      modifies this`speed, this`invincible, this`colour, this`doublePoints, this`effects
      ensures Valid()
      ensures effects == old(effects)[kind := now]
      ensures speed == if kind == Speed then BoostedSpeed else old(speed)
    {
      match kind
      case Speed =>
        speed := BoostedSpeed;
        effects := effects[Speed := now];
      case Invincibility =>
        invincible := true;
        colour := Gold;
        effects := effects[Invincibility := now];
      case DoublePoints =>
        doublePoints := true;
        effects := effects[DoublePoints := now];
    }

    /** Removes every effect older than `EffectDuration` at clock value `now`
        and undoes it; an expiring speed effect sets the speed back to the
        initial speed, not to the speed the level had reached. */
    method UpdateEffects(now: int)
      requires Valid()
      modifies this`speed, this`invincible, this`colour, this`doublePoints, this`effects
      ensures Valid()
      ensures effects == Expire(old(effects), now)
      ensures speed == if Speed in old(effects) && Speed !in effects then InitialSpeed else old(speed)
    {
      ghost var start := effects;
      if Speed in effects && now - effects[Speed] > EffectDuration {
        speed := InitialSpeed;
        effects := effects - {Speed};
      }
      if Invincibility in effects && now - effects[Invincibility] > EffectDuration {
        invincible := false;
        colour := Green;
        effects := effects - {Invincibility};
      }
      if DoublePoints in effects && now - effects[DoublePoints] > EffectDuration {
        doublePoints := false;
        effects := effects - {DoublePoints};
      }
      forall k | k in start
        ensures k in effects <==> k in Expire(start, now)
      {
        match k
        case Speed =>
        case Invincibility =>
        case DoublePoints =>
      }
      assert effects.Keys == Expire(start, now).Keys;
    }
  }
}
