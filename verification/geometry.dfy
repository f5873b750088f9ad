/**
  Grid geometry of the snake game: integer cells, unit directions, the
  square playing field of `CellCount` x `CellCount` cells, and the counting
  argument that a body shorter than the field leaves some cell free.
 */
module Geometry {

  /** A grid cell or a direction. The game only ever stores whole numbers in
      its vectors, so the coordinates are integers and equality is exact. */
  datatype Vector2 = Vector2(x: int, y: int)

  /** Number of cells along each side of the square field. */
  const CellCount: int := 25

  /** Number of cells in the whole field. */
  const GridArea: int := CellCount * CellCount

  /** Component-wise sum of two vectors. */
  function Add(a: Vector2, b: Vector2): Vector2
  {
    Vector2(a.x + b.x, a.y + b.y)
  }

  /** The direction pointing the other way. */
  function Opposite(d: Vector2): Vector2
  {
    Vector2(-d.x, -d.y)
  }

  /** The cell lies on the playing field. */
  predicate InGrid(c: Vector2)
  {
    0 <= c.x < CellCount && 0 <= c.y < CellCount
  }

  /** One of the four headings up (0,-1), down (0,1), left (-1,0), right (1,0). */
  predicate IsUnit(d: Vector2)
  {
    d == Vector2(0, -1) || d == Vector2(0, 1) || d == Vector2(-1, 0) || d == Vector2(1, 0)
  }

  /** The cell is one step outside the field: a coordinate equals -1 or `CellCount`. */
  predicate OnEdge(c: Vector2)
  {
    c.x == CellCount || c.x == -1 || c.y == CellCount || c.y == -1
  }

  /** A unit step from a cell of the field leaves the field exactly when it
      lands on one of the two out-of-range values the edge test looks for. */
  lemma StepLeavesGridIffOnEdge(c: Vector2, d: Vector2)
    requires InGrid(c) && IsUnit(d)
    ensures !InGrid(Add(c, d)) <==> OnEdge(Add(c, d))
  {
  }

  /** Taking two unit steps in the same direction never returns to the start. */
  lemma DoubleStepMoves(c: Vector2, d: Vector2)
    requires IsUnit(d)
    ensures Add(Add(c, d), d) != c
  {
  }

  // ---------------------------------------------------------------------
  // Counting the cells of the field.

  /** The cells of row `y` whose column is below `n`. */
  ghost function RowPrefix(y: int, n: nat): set<Vector2>
  {
    if n == 0 then {} else RowPrefix(y, n - 1) + {Vector2(n - 1, y)}
  }

  lemma {:induction false} RowPrefixMembers(y: int, n: nat, c: Vector2)
    ensures c in RowPrefix(y, n) <==> c.y == y && 0 <= c.x < n
  {
    if n > 0 {
      RowPrefixMembers(y, n - 1, c);
    }
  }

  lemma {:induction false} RowPrefixSize(y: int, n: nat)
    ensures |RowPrefix(y, n)| == n
  {
    if n > 0 {
      RowPrefixSize(y, n - 1);
      RowPrefixMembers(y, n - 1, Vector2(n - 1, y));
    }
  }

  /** The cells of the first `m` rows of the field. */
  ghost function Rows(m: nat): set<Vector2>
  {
    if m == 0 then {} else Rows(m - 1) + RowPrefix(m - 1, CellCount)
  }

  lemma {:induction false} RowsMembers(m: nat, c: Vector2)
    ensures c in Rows(m) <==> 0 <= c.y < m && 0 <= c.x < CellCount
  {
    if m > 0 {
      RowsMembers(m - 1, c);
      RowPrefixMembers(m - 1, CellCount, c);
    }
  }

  lemma {:induction false} RowsSize(m: nat)
    ensures |Rows(m)| == m * CellCount
  {
    if m > 0 {
      RowsSize(m - 1);
      RowPrefixSize(m - 1, CellCount);
      var above, row := Rows(m - 1), RowPrefix(m - 1, CellCount);
      forall c | c in above * row
        ensures false
      {
        RowsMembers(m - 1, c);
        RowPrefixMembers(m - 1, CellCount, c);
      }
      assert above * row == {};
    }
  }

  /** `Rows(CellCount)` is the whole field as a set. */
  lemma FieldIsGrid(c: Vector2)
    ensures c in Rows(CellCount) <==> InGrid(c)
  {
    RowsMembers(CellCount, c);
  }

  // ---------------------------------------------------------------------
  // Cells covered by a sequence.

  /** The set of cells that occur in `cells`. */
  ghost function Covered(cells: seq<Vector2>): set<Vector2>
  {
    if |cells| == 0 then {} else {cells[0]} + Covered(cells[1..])
  }

  lemma {:induction false} CoveredMembers(cells: seq<Vector2>, c: Vector2)
    ensures c in Covered(cells) <==> c in cells
  {
    if |cells| > 0 {
      CoveredMembers(cells[1..], c);
      assert cells == [cells[0]] + cells[1..];
    }
  }

  lemma {:induction false} CoveredSize(cells: seq<Vector2>)
    ensures |Covered(cells)| <= |cells|
  {
    if |cells| > 0 {
      CoveredSize(cells[1..]);
    }
  }

  /** No cell occurs twice. */
  predicate Distinct(cells: seq<Vector2>)
  {
    forall i, j :: 0 <= i < j < |cells| ==> cells[i] != cells[j]
  }

  /** Every cell of the sequence lies on the field. */
  predicate AllInGrid(cells: seq<Vector2>)
  {
    forall i :: 0 <= i < |cells| ==> InGrid(cells[i])
  }

  /** Putting a new cell in front of a duplicate-free sequence keeps it
      duplicate-free. */
  lemma DistinctCons(c: Vector2, cells: seq<Vector2>)
    requires Distinct(cells) && c !in cells
    ensures Distinct([c] + cells)
  {
    var all := [c] + cells;
    forall i, j | 0 <= i < j < |all|
      ensures all[i] != all[j]
    {
      assert all[j] == cells[j - 1];
      if i > 0 {
        assert all[i] == cells[i - 1];
      }
    }
  }

  lemma {:induction false} DistinctCoveredSize(cells: seq<Vector2>)
    requires Distinct(cells)
    ensures |Covered(cells)| == |cells|
  {
    if |cells| > 0 {
      DistinctCoveredSize(cells[1..]);
      CoveredMembers(cells[1..], cells[0]);
    }
  }

  lemma SubsetSize(a: set<Vector2>, b: set<Vector2>)
    requires a <= b
    ensures |a| <= |b|
  {
    assert b == a + (b - a);
    assert a * (b - a) == {};
  }

  /** Pigeonhole: a sequence shorter than the field leaves some cell of the
      field uncovered. */
  lemma FreeCellExists(cells: seq<Vector2>)
    requires |cells| < GridArea
    ensures exists c :: InGrid(c) && c !in cells
  {
    if forall c :: InGrid(c) ==> c in cells {
      forall c | c in Rows(CellCount)
        ensures c in Covered(cells)
      {
        FieldIsGrid(c);
        CoveredMembers(cells, c);
      }
      SubsetSize(Rows(CellCount), Covered(cells));
      RowsSize(CellCount);
      CoveredSize(cells);
      assert false;
    }
  }

  /** Conversely, a sequence of distinct cells of the field has at most
      `GridArea` elements, and if it has exactly that many it covers every cell. */
  lemma DistinctInGridBound(cells: seq<Vector2>)
    requires Distinct(cells) && AllInGrid(cells)
    ensures |cells| <= GridArea
    ensures |cells| == GridArea ==> forall c :: InGrid(c) ==> c in cells
  {
    forall c | c in Covered(cells)
      ensures c in Rows(CellCount)
    {
      CoveredMembers(cells, c);
      FieldIsGrid(c);
    }
    SubsetSize(Covered(cells), Rows(CellCount));
    RowsSize(CellCount);
    DistinctCoveredSize(cells);
    if |cells| == GridArea {
      forall c | InGrid(c)
        ensures c in cells
      {
        if c !in cells {
          FieldIsGrid(c);
          CoveredMembers(cells, c);
          SubsetSize(Covered(cells), Rows(CellCount) - {c});
          assert false;
        }
      }
    }
  }
}
