/**
  The snake: its body as a sequence of cells with the head first, its
  heading, and the one-shot growth flag set when food is eaten.
 */
module SnakeBody {
  import opened Geometry

  datatype Snake = Snake(body: seq<Vector2>, direction: Vector2, addSegment: bool)

  /** The three-cell body the snake starts with and returns to on reset. */
  const InitialBody: seq<Vector2> := [Vector2(6, 9), Vector2(5, 9), Vector2(4, 9)]

  /** The heading the snake starts with and returns to on reset: down. */
  const InitialDirection: Vector2 := Vector2(0, 1)

  /** The snake as first constructed. */
  const Initial: Snake := Snake(InitialBody, InitialDirection, false)

  /** One movement step. A new head one cell along `direction` is pushed in
      front; the last cell is dropped unless the growth flag is set, in which
      case the flag is consumed instead. */
  function Update(s: Snake): (r: Snake)
    requires |s.body| >= 1
    ensures |r.body| >= 1 && r.body[0] == Add(s.body[0], s.direction)
    ensures s.addSegment ==> |r.body| == |s.body| + 1 && r.body[1..] == s.body
    ensures !s.addSegment ==> |r.body| == |s.body| && r.body[1..] == s.body[..|s.body| - 1]
    ensures !r.addSegment && r.direction == s.direction
  {
    var pushed := [Add(s.body[0], s.direction)] + s.body;
    if s.addSegment then
      s.(body := pushed, addSegment := false)
    else
      s.(body := pushed[..|pushed| - 1])
  }

  /** Restores the initial body and heading. The growth flag is left as it is. */
  function Reset(s: Snake): (r: Snake)
    ensures r.body == InitialBody && r.direction == InitialDirection
    ensures r.addSegment == s.addSegment
  {
    s.(body := InitialBody, direction := InitialDirection)
  }

  /** Every cell behind the new head was already part of the old body, so a
      step only ever adds the one new head cell. */
  lemma UpdateOnlyAddsHead(s: Snake, c: Vector2)
    requires |s.body| >= 1
    ensures c in Update(s).body[1..] ==> c in s.body
    ensures c in Update(s).body ==> c == Add(s.body[0], s.direction) || c in s.body
  {
    var r := Update(s);
    assert r.body == [r.body[0]] + r.body[1..];
    if !s.addSegment {
      assert s.body == s.body[..|s.body| - 1] + [s.body[|s.body| - 1]];
    }
  }

  /** Without growth the old tail cell leaves the body, provided it occurred
      only once. */
  lemma {:induction false} UpdateVacatesTail(s: Snake)
    requires |s.body| >= 1 && !s.addSegment && Distinct(s.body)
    ensures s.body[|s.body| - 1] !in Update(s).body[1..]
  {
    var r := Update(s);
    var n := |s.body|;
    forall i | 0 <= i < |r.body[1..]|
      ensures r.body[1..][i] != s.body[n - 1]
    {
      assert r.body[1..][i] == s.body[i];
    }
  }

  /** Step law: from the initial body heading down, one plain step. */
  lemma StepLaw()
    ensures Update(Initial).body == [Vector2(6, 10), Vector2(6, 9), Vector2(5, 9)]
  {
  }

  /** Growth law: with the flag set the old tail is kept, and the step after
      that drops the new tail again. */
  lemma GrowthLaw()
    ensures Update(Initial.(addSegment := true)).body
         == [Vector2(6, 10), Vector2(6, 9), Vector2(5, 9), Vector2(4, 9)]
    ensures Update(Update(Initial.(addSegment := true))).body
         == [Vector2(6, 11), Vector2(6, 10), Vector2(6, 9), Vector2(5, 9)]
  {
  }
}
