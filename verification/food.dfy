/**
  Food placement. The game draws random cells of the field and keeps
  drawing until one is off the snake's body. The random source is not
  modelled: `GenerateRandomPos` is any free cell of the field, and
  `ResampleLoop` runs the drawing loop over a given sequence of draws.
 */
module FoodPlacement {
  import opened Geometry
  import opened Occupancy

  /** A cell where food may be put: on the field and off the body. */
  predicate IsFree(c: Vector2, body: seq<Vector2>)
  {
    InGrid(c) && !ElementInDeque(c, body)
  }

  /** Some free cell of the field. The drawing loop only ends when such a cell
      exists, which a body shorter than the field guarantees. */
  ghost function GenerateRandomPos(body: seq<Vector2>): (position: Vector2)
    requires |body| < GridArea
    ensures InGrid(position)
    ensures !ElementInDeque(position, body)
  {
    FreeCellExists(body);
    var position :| InGrid(position) && position !in body;
    position
  }

  /** Result of running the drawing loop on a finite sequence of draws. */
  datatype Placement = Placed(position: Vector2) | StillDrawing

  /** The drawing loop over the draws `draws`, each of which is a cell of the
      field as the random-cell generator promises. It returns the first draw
      that is off the body; if every given draw is on the body the loop would
      go on drawing, which is reported as `StillDrawing`. */
  method ResampleLoop(body: seq<Vector2>, draws: seq<Vector2>) returns (r: Placement)
    requires forall i :: 0 <= i < |draws| ==> InGrid(draws[i])
    ensures r.Placed? <==> exists i :: 0 <= i < |draws| && !ElementInDeque(draws[i], body)
    ensures r.Placed? ==> IsFree(r.position, body)
    ensures r.Placed? ==> exists k :: 0 <= k < |draws| && draws[k] == r.position
                                      && forall j :: 0 <= j < k ==> ElementInDeque(draws[j], body)
  {
    var k := 0;
    while k < |draws|
      invariant 0 <= k <= |draws|
      invariant forall j :: 0 <= j < k ==> ElementInDeque(draws[j], body)
    {
      if !ElementInDeque(draws[k], body) {
        return Placed(draws[k]);
      }
      k := k + 1;
    }
    return StillDrawing;
  }
}
