/**
  The direction keys of the main loop. Each arrow key is guarded by a test
  on the snake's current heading; an accepted key sets the new heading and
  starts the game again if it was stopped.
 */
module Controls {
  import opened Geometry
  import SnakeBody
  import opened GameEngine

  datatype Key = Up | Down | Left | Right

  /** The heading an arrow key asks for. */
  function Heading(k: Key): (d: Vector2)
    ensures IsUnit(d)
  {
    match k
    case Up => Vector2(0, -1)
    case Down => Vector2(0, 1)
    case Left => Vector2(-1, 0)
    case Right => Vector2(1, 0)
  }

  /** The guard of each key as the main loop writes it: one coordinate of the
      current heading must not point the opposite way. */
  predicate Accepts(direction: Vector2, k: Key)
  {
    match k
    case Up => direction.y != 1
    case Down => direction.y != -1
    case Left => direction.x != 1
    case Right => direction.x != -1
  }

  /** For a unit heading the one-coordinate guard is exactly the test "the
      key does not ask for the reverse heading". */
  lemma AcceptsIffNotReverse(direction: Vector2, k: Key)
    requires IsUnit(direction)
    ensures Accepts(direction, k) <==> Heading(k) != Opposite(direction)
  {
  }

  /** A pressed key: when its guard holds the heading changes and the game
      runs; otherwise nothing changes. Body, growth flag, food and score are
      never touched. */
  function Press(g: Game, k: Key): (r: Game)
    ensures r.snake.body == g.snake.body && r.snake.addSegment == g.snake.addSegment
    ensures r.food == g.food && r.score == g.score
    ensures Accepts(g.snake.direction, k) ==> r.snake.direction == Heading(k) && r.running
    ensures !Accepts(g.snake.direction, k) ==> r == g
  {
    if Accepts(g.snake.direction, k) then
      g.(snake := g.snake.(direction := Heading(k)), running := true)
    else
      g
  }

  /** A key press never turns a unit heading into its reverse, keeps the
      heading a unit vector, and a press that changes the heading also
      leaves the game running. */
  lemma PressNeverReverses(g: Game, k: Key)
    requires IsUnit(g.snake.direction)
    ensures Press(g, k).snake.direction != Opposite(g.snake.direction)
    ensures IsUnit(Press(g, k).snake.direction)
    ensures Press(g, k).snake.direction != g.snake.direction ==> Press(g, k).running
  {
  }

  /** Key presses keep a valid game valid. */
  lemma PressPreservesValid(g: Game, k: Key)
    requires Valid(g)
    ensures Valid(Press(g, k))
  {
  }

  /** The keys pressed during one frame, tested in the order Up, Down, Left,
      Right, each against the heading the previous tests left. */
  function FrameKeys(g: Game, pressed: set<Key>): (r: Game)
    ensures r.snake.body == g.snake.body && r.snake.addSegment == g.snake.addSegment
    ensures r.food == g.food && r.score == g.score
    ensures IsUnit(g.snake.direction) ==> IsUnit(r.snake.direction)
    ensures pressed == {} ==> r == g
    ensures forall k :: pressed == {k} ==> r == Press(g, k)
    ensures r.snake.direction == g.snake.direction
            || exists k :: k in pressed && r.snake.direction == Heading(k)
    ensures r.snake.direction != g.snake.direction ==> r.running
    ensures r.running <==> g.running || exists k :: k in pressed && Accepts(g.snake.direction, k)
  {
    var afterUp := if Up in pressed then Press(g, Up) else g;
    var afterDown := if Down in pressed then Press(afterUp, Down) else afterUp;
    var afterLeft := if Left in pressed then Press(afterDown, Left) else afterDown;
    if Right in pressed then Press(afterLeft, Right) else afterLeft
  }

  // ---------------------------------------------------------------------
  // The guard compares with the stored heading, not with the way the snake
  // last moved.

  /** After a round ends the snake lies along row 9 with its head on the
      right, yet its stored heading is down. Left passes the guard, the game
      resumes, and the very next tick puts the head on the cell just behind
      it: the round ends again at once. */
  lemma ResumeLeftAfterResetDies(g: Game)
    requires IsResetState(g)
    ensures Press(g, Left).running
    ensures TickTerminates(Press(g, Left))
    ensures IsResetState(Update(Press(g, Left)))
  {
    var p := Press(g, Left);
    var s := SnakeBody.Update(p.snake);
    assert s.body[0] == Vector2(5, 9);
    assert s.body[1..][1] == SnakeBody.InitialBody[1] == Vector2(5, 9);
    assert s.body[0] != p.food;
    var st := Stepped(p);
    assert CheckCollisionWithFood(st) == st;
    assert CheckCollisionWithEdges(st) == st;
    assert st.snake.body[0] in st.snake.body[1..];
  }

  /** Two keys in one frame: heading right, Up then Left both pass their
      guards, and the heading ends up as the reverse of the one before. */
  lemma TwoKeysReverseInOneFrame(g: Game)
    requires g.snake.direction == Vector2(1, 0)
    ensures FrameKeys(g, {Up, Left}).snake.direction == Opposite(g.snake.direction)
  {
  }

  /** The heading does not send the head back onto the cell right behind it
      (the neck), which is where the previous step came from. */
  predicate NeckSafe(s: SnakeBody.Snake)
  {
    |s.body| < 2 || Add(s.body[0], s.direction) != s.body[1]
  }

  /** The guard the key tests evidently intend: besides the test as written,
      refuse a heading that would put the head on the neck. */
  function PressGuarded(g: Game, k: Key): (r: Game)
    ensures r.snake.body == g.snake.body && r.snake.addSegment == g.snake.addSegment
    ensures r.food == g.food && r.score == g.score
    ensures r.snake.direction == Heading(k) || r == g
    ensures Accepts(g.snake.direction, k) && NeckSafe(g.snake.(direction := Heading(k)))
            ==> r.snake.direction == Heading(k) && r.running
    ensures !Accepts(g.snake.direction, k) ==> r == g
    ensures !NeckSafe(g.snake.(direction := Heading(k))) ==> r == g
    ensures NeckSafe(g.snake) ==> NeckSafe(r.snake)
  {
    var turned := g.snake.(direction := Heading(k));
    if Accepts(g.snake.direction, k) && NeckSafe(turned) then
      g.(snake := turned, running := true)
    else
      g
  }

  /** A tick of a running valid game always ends with the head off the neck,
      whatever the heading before: either the snake moves on, so the neck is
      the old head one step back, or the round ends in the reset state. Only
      a key press can point the head back onto the neck. */
  lemma {:induction false} RunningTickIsNeckSafe(g: Game)
    requires Valid(g) && g.running && TickTerminates(g)
    ensures NeckSafe(Update(g).snake)
  {
    var s := SnakeBody.Update(g.snake);
    UpdateOutcome(g);
    if !Collides(s) {
      assert s.body[1] == g.snake.body[0];
      DoubleStepMoves(g.snake.body[0], g.snake.direction);
    }
  }

  /** The snake's own movement keeps the head off the neck, and so does a
      reset; together with `PressGuarded` no key sequence can make a tick run
      the head onto the neck. */
  lemma {:induction false} UpdateKeepsNeckSafe(g: Game)
    requires Valid(g) && TickTerminates(g) && NeckSafe(g.snake)
    ensures NeckSafe(Update(g).snake)
  {
    if g.running {
      RunningTickIsNeckSafe(g);
    }
  }

  /** With the corrected guard the key that ends the round at once is refused. */
  lemma GuardedRefusesLeftAfterReset(g: Game)
    requires IsResetState(g)
    ensures PressGuarded(g, Left) == g
    ensures NeckSafe(g.snake)
  {
  }
}
