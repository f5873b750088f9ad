/**
  A whole session as a sequence of events: ticks of the update clock and
  key presses, in the order the main loop sees them. A tick whose food
  check could never find a free cell is reported as `Blocked` rather than
  being given a result.
 */
module Play {
  import opened Geometry
  import SnakeBody
  import opened FoodPlacement
  import opened GameEngine
  import opened Controls

  datatype Event = Tick | KeyPressed(key: Key)

  datatype Outcome = Reached(game: Game) | Blocked

  /** The game as the members of the game class first set it: the initial
      snake, running, score zero, and food on some free cell. */
  ghost function InitialGame(): (g: Game)
    ensures Valid(g) && g.running && g.score == 0
    ensures g.snake == SnakeBody.Initial
    ensures NeckSafe(g.snake)
  {
    Game(SnakeBody.Initial, GenerateRandomPos(SnakeBody.InitialBody), true, 0)
  }

  /** The key handler: the guard as the main loop writes it, or the
      corrected guard that also refuses the neck. */
  function HandleKey(g: Game, k: Key, guarded: bool): (r: Game)
    ensures IsUnit(g.snake.direction) ==> IsUnit(r.snake.direction)
    ensures r.snake.body == g.snake.body && r.food == g.food && r.score == g.score
    ensures r.snake.addSegment == g.snake.addSegment
    ensures r != g ==> r.snake.direction == Heading(k) && r.running
    ensures !guarded && Accepts(g.snake.direction, k) ==> r.snake.direction == Heading(k) && r.running
    ensures guarded && Accepts(g.snake.direction, k) && NeckSafe(g.snake.(direction := Heading(k)))
            ==> r.snake.direction == Heading(k) && r.running
    ensures !Accepts(g.snake.direction, k) ==> r == g
    ensures guarded && !NeckSafe(g.snake.(direction := Heading(k))) ==> r == g
  {
    if guarded then PressGuarded(g, k) else Press(g, k)
  }

  /** A tick keeps a valid game valid and keeps the head off the neck. */
  lemma TickKeepsInvariants(g: Game)
    requires Valid(g) && TickTerminates(g)
    ensures Valid(Update(g))
    ensures NeckSafe(g.snake) ==> NeckSafe(Update(g).snake)
  {
    UpdatePreservesValid(g);
    if NeckSafe(g.snake) {
      UpdateKeepsNeckSafe(g);
    }
  }

  /** Runs the events from a valid game. Every game reached is valid: the
      food is off the body, the body has at least three distinct cells of the
      field, and the heading is a unit vector. */
  ghost function Run(g: Game, events: seq<Event>, guarded: bool): (r: Outcome)
    requires Valid(g)
    ensures r.Reached? ==> Valid(r.game)
    ensures guarded && NeckSafe(g.snake) && r.Reached? ==> NeckSafe(r.game.snake)
    decreases |events|
  {
    if |events| == 0 then
      Reached(g)
    else
      match events[0]
      case Tick =>
        if TickTerminates(g) then
          TickKeepsInvariants(g);
          Run(Update(g), events[1..], guarded)
        else
          Blocked
      case KeyPressed(k) =>
        Run(HandleKey(g, k, guarded), events[1..], guarded)
  }

  /** The session blocks at event `n`: the events before it lead to a running
      game, event `n` is a tick, and the snake after that tick's step covers
      all of the field, so no free cell is left for the food. */
  ghost predicate BlockedAt(g: Game, events: seq<Event>, guarded: bool, n: int)
    requires Valid(g)
  {
    && 0 <= n < |events| && events[n] == Tick
    && var before := Run(g, events[..n], guarded);
    && before.Reached? && before.game.running && !TickTerminates(before.game)
    && |SnakeBody.Update(before.game.snake).body| == GridArea
  }

  /** A session reports `Blocked` only at a tick whose stepped snake fills
      every cell of the field: the one case where the food check of the main
      loop would resample forever. */
  lemma {:induction false} RunBlocksOnlyOnFullField(g: Game, events: seq<Event>, guarded: bool)
    requires Valid(g) && Run(g, events, guarded).Blocked?
    ensures exists n :: BlockedAt(g, events, guarded, n)
    decreases |events|
  {
    assert events[..0] == [];
    if events[0] == Tick && !TickTerminates(g) {
      TickBlocksOnlyOnFullField(g);
      assert BlockedAt(g, events, guarded, 0);
    } else {
      var h := if events[0] == Tick then Update(g) else HandleKey(g, events[0].key, guarded);
      if events[0] == Tick {
        TickKeepsInvariants(g);
      }
      assert Valid(h);
      assert Run(g, events, guarded) == Run(h, events[1..], guarded);
      RunBlocksOnlyOnFullField(h, events[1..], guarded);
      var m :| BlockedAt(h, events[1..], guarded, m);
      assert events[..m + 1][0] == events[0];
      assert events[..m + 1][1..] == events[1..][..m];
      assert Run(g, events[..m + 1], guarded) == Run(h, events[1..][..m], guarded);
      assert BlockedAt(g, events, guarded, m + 1);
    }
  }

  /** As written: after a round ends, Left followed by one tick ends the
      round again. */
  lemma {:induction false} LeftThenTickAfterReset(g: Game)
    requires Valid(g) && IsResetState(g)
    ensures Run(g, [KeyPressed(Left), Tick], false).Reached?
    ensures IsResetState(Run(g, [KeyPressed(Left), Tick], false).game)
  {
    ResumeLeftAfterResetDies(g);
    var p := Press(g, Left);
    assert Run(g, [KeyPressed(Left), Tick], false) == Run(p, [Tick], false);
    assert [Tick][1..] == [];
  }
}
