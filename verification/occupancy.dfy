/**
  The occupancy check `ElementInDeque`: a left-to-right scan of a sequence of
  cells that stops at the first cell equal to the one looked for.
 */
module Occupancy {
  import opened Geometry

  /** The scan from index `i` onwards: true as soon as a cell equals `element`. */
  function ScanFrom(element: Vector2, deque: seq<Vector2>, i: nat): (found: bool)
    requires i <= |deque|
    ensures found <==> exists j :: i <= j < |deque| && deque[j] == element
    decreases |deque| - i
  {
    if i == |deque| then false
    else if deque[i] == element then true
    else ScanFrom(element, deque, i + 1)
  }

  /** Whether `element` occurs in `deque`; an empty deque contains nothing. */
  function ElementInDeque(element: Vector2, deque: seq<Vector2>): (found: bool)
    ensures found <==> exists i :: 0 <= i < |deque| && deque[i] == element
    ensures |deque| == 0 ==> !found
  {
    ScanFrom(element, deque, 0)
  }

  /** The scan agrees with sequence membership. */
  lemma ElementInDequeIsMembership(element: Vector2, deque: seq<Vector2>)
    ensures ElementInDeque(element, deque) <==> element in deque
  {
  }
}
