/**
  The game state machine: one snake, one food cell, the score and the
  running flag. A tick steps the snake and then applies, in this order, the
  food check, the edge check and the self-collision check; either collision
  check ends the round through `GameOver`.
 */
module GameEngine {
  import opened Geometry
  import opened Occupancy
  import SnakeBody
  import opened FoodPlacement

  datatype Game = Game(snake: SnakeBody.Snake, food: Vector2, running: bool, score: nat)

  /** The head is on the food cell. */
  predicate HeadOnFood(g: Game)
    requires |g.snake.body| >= 1
  {
    g.snake.body[0] == g.food
  }

  /** The food check can finish: it only draws a new cell when the head is
      on the food, and then the body must leave a cell of the field free. */
  predicate FoodPlaceable(g: Game)
  {
    |g.snake.body| >= 1 && (HeadOnFood(g) ==> |g.snake.body| < GridArea)
  }

  /** The game after the snake's movement step alone. */
  function Stepped(g: Game): (r: Game)
    requires |g.snake.body| >= 1
  {
    g.(snake := SnakeBody.Update(g.snake))
  }

  /** A tick can finish: a stopped game does nothing, and a running one must
      be able to finish its food check after the step. */
  predicate TickTerminates(g: Game)
  {
    |g.snake.body| >= 1 && (g.running ==> FoodPlaceable(Stepped(g)))
  }

  /** Eating: with the head on the food, the food moves to a free cell, the
      snake is told to grow and the score goes up by one. */
  ghost function CheckCollisionWithFood(g: Game): (r: Game)
    requires FoodPlaceable(g)
    ensures r.snake.body == g.snake.body && r.snake.direction == g.snake.direction
    ensures r.running == g.running
    ensures HeadOnFood(g) ==> r.snake.addSegment && r.score == g.score + 1
    ensures HeadOnFood(g) ==> InGrid(r.food) && !ElementInDeque(r.food, r.snake.body)
    ensures !HeadOnFood(g) ==> r == g
  {
    if g.snake.body[0] == g.food then
      g.(food := GenerateRandomPos(g.snake.body),
         snake := g.snake.(addSegment := true),
         score := g.score + 1)
    else
      g
  }

  /** End of a round: the snake is reset, the food moves off the reset body,
      the game stops and the score drops to zero. The growth flag is not
      touched. */
  ghost function GameOver(g: Game): (r: Game)
    ensures r.snake.body == SnakeBody.InitialBody && r.snake.direction == SnakeBody.InitialDirection
    ensures r.snake.addSegment == g.snake.addSegment
    ensures InGrid(r.food) && !ElementInDeque(r.food, r.snake.body)
    ensures !r.running && r.score == 0
  {
    var snake := SnakeBody.Reset(g.snake);
    Game(snake, GenerateRandomPos(snake.body), false, 0)
  }

  /** The wall test: the round ends when a head coordinate is -1 or
      `CellCount`. The column and the row are tested one after the other. */
  ghost function CheckCollisionWithEdges(g: Game): (r: Game)
    requires |g.snake.body| >= 1
    ensures OnEdge(g.snake.body[0]) ==> r == GameOver(g)
    ensures !OnEdge(g.snake.body[0]) ==> r == g
  {
    var head := g.snake.body[0];
    var afterColumn := if head.x == CellCount || head.x == -1 then GameOver(g) else g;
    var head' := afterColumn.snake.body[0];
    if head'.y == CellCount || head'.y == -1 then GameOver(afterColumn) else afterColumn
  }

  /** The self-collision test: the round ends when the head occurs again in
      the rest of the body. */
  ghost function CheckCollisionWithTail(g: Game): (r: Game)
    requires |g.snake.body| >= 1
    ensures g.snake.body[0] in g.snake.body[1..] ==> r == GameOver(g)
    ensures g.snake.body[0] !in g.snake.body[1..] ==> r == g
  {
    var headless := g.snake.body[1..];
    if ElementInDeque(g.snake.body[0], headless) then GameOver(g) else g
  }

  /** One tick. A stopped game is left alone. */
  ghost function Update(g: Game): (r: Game)
    requires TickTerminates(g)
    ensures !g.running ==> r == g
    ensures |r.snake.body| >= 1
  {
    if !g.running then
      g
    else
      var fed := CheckCollisionWithFood(Stepped(g));
      var edged := CheckCollisionWithEdges(fed);
      CheckCollisionWithTail(edged)
  }

  // ---------------------------------------------------------------------
  // Invariants and laws.

  /** The state every reachable game is in: a body of at least three distinct
      cells of the field, a unit heading, food on a free cell of the field,
      and a score equal to the growth since the last reset (counting growth
      still pending in the flag). */
  predicate Valid(g: Game)
  {
    && |g.snake.body| >= 3
    && AllInGrid(g.snake.body)
    && Distinct(g.snake.body)
    && IsUnit(g.snake.direction)
    && IsFree(g.food, g.snake.body)
    && |g.snake.body| + (if g.snake.addSegment then 1 else 0) == 3 + g.score
  }

  /** The state `GameOver` leaves behind. */
  predicate IsResetState(r: Game)
  {
    && r.snake.body == SnakeBody.InitialBody
    && r.snake.direction == SnakeBody.InitialDirection
    && !r.running && r.score == 0
    && IsFree(r.food, SnakeBody.InitialBody)
  }

  /** The stepped snake collides: its head is off the field or lies on the
      rest of its body. */
  predicate Collides(s: SnakeBody.Snake)
    requires |s.body| >= 1
  {
    !InGrid(s.body[0]) || s.body[0] in s.body[1..]
  }

  /** Reset law: whatever the score, body or heading before, the round ends
      with the same snake, stopped and with score zero; only the growth flag
      is carried over. The food is some free cell of the reset body, drawn
      afresh each time, so nothing is said about two draws being equal. */
  lemma GameOverForgetsHistory(g1: Game, g2: Game)
    requires g1.snake.addSegment == g2.snake.addSegment
    ensures GameOver(g1).snake == GameOver(g2).snake
    ensures GameOver(g1).running == GameOver(g2).running
    ensures GameOver(g1).score == GameOver(g2).score
    ensures IsResetState(GameOver(g1)) && IsResetState(GameOver(g2))
  {
  }

  /** The reset state triggers neither collision check, so running both
      checks in the same tick cannot end the round twice. */
  lemma GameOverIsStable(g: Game)
    ensures CheckCollisionWithEdges(GameOver(g)) == GameOver(g)
    ensures CheckCollisionWithTail(GameOver(g)) == GameOver(g)
  {
    var r := GameOver(g);
    assert r.snake.body[1..] == [Vector2(5, 9), Vector2(4, 9)];
  }

  /** What a tick of a running valid game does, stated against the stepped
      snake: a collision resets the game (and the growth flag is then never
      set), eating grows the snake and moves the food, and otherwise only
      the snake moves. Eating and colliding never happen in the same tick. */
  lemma {:induction false} UpdateOutcome(g: Game)
    requires Valid(g) && g.running && TickTerminates(g)
    ensures var s := SnakeBody.Update(g.snake); var r := Update(g);
      && (Collides(s) ==> IsResetState(r) && !r.snake.addSegment && s.body[0] != g.food)
      && (!Collides(s) && s.body[0] == g.food ==>
            && r.snake == s.(addSegment := true)
            && r.running && r.score == g.score + 1
            && IsFree(r.food, s.body))
      && (!Collides(s) && s.body[0] != g.food ==> r == g.(snake := s))
  {
    var s := SnakeBody.Update(g.snake);
    var head := s.body[0];
    var st := Stepped(g);
    var fed := CheckCollisionWithFood(st);
    var edged := CheckCollisionWithEdges(fed);
    StepLeavesGridIffOnEdge(g.snake.body[0], g.snake.direction);
    assert InGrid(head) <==> !OnEdge(head);
    GameOverIsStable(st);
    if head == g.food {
      assert head !in s.body[1..] by {
        if head in s.body[1..] {
          SnakeBody.UpdateOnlyAddsHead(g.snake, head);
          assert false;
        }
      }
      assert edged == fed;
    } else {
      assert fed == st;
    }
  }

  /** The self-collision test runs on the body after the step, so a head
      moving onto the cell the tail leaves in the same tick is no collision:
      the game goes on with the head on the old tail cell. */
  lemma {:induction false} ChasingTailIsNoCollision(g: Game)
    requires Valid(g) && g.running && !g.snake.addSegment && TickTerminates(g)
    requires Add(g.snake.body[0], g.snake.direction) == g.snake.body[|g.snake.body| - 1]
    ensures Update(g).running
    ensures Update(g).snake.body[0] == g.snake.body[|g.snake.body| - 1]
    ensures Update(g).score == g.score
  {
    var s := SnakeBody.Update(g.snake);
    SnakeBody.UpdateVacatesTail(g.snake);
    assert InGrid(s.body[0]);
    UpdateOutcome(g);
  }

  /** A head on the last column heading right leaves the field and the round
      ends in the same tick. */
  lemma EdgeScenario(g: Game)
    requires Valid(g) && g.running && TickTerminates(g)
    requires g.snake.body[0] == Vector2(24, 9) && g.snake.direction == Vector2(1, 0)
    ensures IsResetState(Update(g))
  {
    UpdateOutcome(g);
  }

  /** Every tick of a valid game, running or not, leaves a valid game: the
      food is off the body, the body keeps at least three cells, all of
      them distinct and on the field, and the score still counts the growth. */
  lemma {:induction false} UpdatePreservesValid(g: Game)
    requires Valid(g) && TickTerminates(g)
    ensures Valid(Update(g))
  {
    if g.running {
      var s := SnakeBody.Update(g.snake);
      var r := Update(g);
      UpdateOutcome(g);
      if !Collides(s) {
        var rest := s.body[1..];
        assert s.body == [s.body[0]] + rest;
        assert AllInGrid(rest) && Distinct(rest);
        DistinctCons(s.body[0], rest);
        forall i | 0 <= i < |s.body|
          ensures InGrid(s.body[i])
        {
          if i > 0 {
            assert s.body[i] == rest[i - 1];
          }
        }
        if s.body[0] != g.food {
          assert !ElementInDeque(g.food, s.body) by {
            if g.food in s.body {
              SnakeBody.UpdateOnlyAddsHead(g.snake, g.food);
              assert false;
            }
          }
        }
      }
    }
  }

  /** A tick of a valid running game can only fail to finish when the snake,
      after its step, covers every cell of the field: only then does the
      food check find no free cell to draw. */
  lemma TickBlocksOnlyOnFullField(g: Game)
    requires Valid(g) && g.running && !TickTerminates(g)
    ensures |SnakeBody.Update(g.snake).body| == GridArea
    ensures forall c :: InGrid(c) ==> c in SnakeBody.Update(g.snake).body
  {
    var s := SnakeBody.Update(g.snake);
    var rest := s.body[1..];
    assert s.body[0] == g.food;
    assert s.body == [s.body[0]] + rest;
    assert g.food !in rest by {
      if g.food in rest {
        SnakeBody.UpdateOnlyAddsHead(g.snake, g.food);
        assert false;
      }
    }
    assert AllInGrid(rest) && Distinct(rest);
    DistinctCons(s.body[0], rest);
    forall i | 0 <= i < |s.body|
      ensures InGrid(s.body[i])
    {
      if i > 0 {
        assert s.body[i] == rest[i - 1];
      }
    }
    DistinctInGridBound(s.body);
  }
}
