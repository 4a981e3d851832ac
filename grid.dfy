/**
 * The 6x6 grid of the puzzle. A cell is an index `col + 6 * row` in [0, 36).
 * The source takes width and height as separate parameters and mixes them in
 * a few places (`cell / gridHeight`); all of those agree because the grid is
 * square, so the model fixes both to 6.
 */
module Grid {
  const W := 6
  const H := 6
  const N := 36

  predicate IsCell(c: int) { 0 <= c < N }

  function Row(c: int): int { c / W }
  function Col(c: int): int { c % W }

  function Abs(x: int): nat { if x < 0 then -x else x }

  /** Independent definition of 4-adjacency: one step up, down, left or right. */
  predicate Adjacent(a: int, b: int)
  {
    IsCell(a) && IsCell(b) && Abs(Row(a) - Row(b)) + Abs(Col(a) - Col(b)) == 1
  }

  /**
   * `Orthogonal`: the source scans the 3x3 block around the cell, column by
   * column (xx outer, yy inner), and keeps only in-bounds cells that share a
   * row or a column with the centre and are not the centre. That leaves, in
   * this order: left, up, down, right.
   */
  function Orthogonal(cell: int): (r: seq<int>)
    requires IsCell(cell)
    ensures forall c :: c in r <==> Adjacent(cell, c)
    ensures forall k :: 0 <= k < |r| ==> IsCell(r[k])
    ensures |r| <= 4
  {
    AdjacentCases(cell);
    var x, y := cell % W, cell / H;
    (if x > 0 then [cell - 1] else [])
    + (if y > 0 then [cell - W] else [])
    + (if y < H - 1 then [cell + W] else [])
    + (if x < W - 1 then [cell + 1] else [])
  }

  /** The neighbours of a cell, case by case: left, up, down, right, where they exist. */
  lemma AdjacentCases(cell: int)
    requires IsCell(cell)
    ensures forall c :: Adjacent(cell, c) <==>
      || (Col(cell) > 0 && c == cell - 1)
      || (Row(cell) > 0 && c == cell - W)
      || (Row(cell) < H - 1 && c == cell + W)
      || (Col(cell) < W - 1 && c == cell + 1)
  {
    forall c
      ensures Adjacent(cell, c) <==>
        || (Col(cell) > 0 && c == cell - 1)
        || (Row(cell) > 0 && c == cell - W)
        || (Row(cell) < H - 1 && c == cell + W)
        || (Col(cell) < W - 1 && c == cell + 1)
    {
      AdjacentAt(cell, c);
    }
  }

  lemma AdjacentAt(cell: int, c: int)
    requires IsCell(cell)
    ensures Adjacent(cell, c) <==>
      || (Col(cell) > 0 && c == cell - 1)
      || (Row(cell) > 0 && c == cell - W)
      || (Row(cell) < H - 1 && c == cell + W)
      || (Col(cell) < W - 1 && c == cell + 1)
  {
    assert cell == W * Row(cell) + Col(cell);
    if IsCell(c) {
      assert c == W * Row(c) + Col(c);
    }
  }

  /** Induction on the naturals, for a property given as a function. */
  lemma {:induction false} NatInduction(P: nat -> bool, k: nat)
    requires P(0)
    requires forall m: nat :: P(m) ==> P(m + 1)
    ensures P(k)
  {
    if k > 0 {
      NatInduction(P, k - 1);
    }
  }
}
