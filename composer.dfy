/**
 * The random solution and its clues: one water level per region
 * (`solutionLevels`), the board `MakeSolutionBoard` rasterises from it, and the
 * row and column clues counted off that board.
 */
module Composer {
  import opened Opt
  import opened Grid
  import opened Oracle
  import opened RegionInfos

  /** A cell of a region holds water at a level iff its row is below the water line. */
  predicate Wet(info: RegionInfo, level: int, c: int)
  {
    Row(c) > info.bottomRow - level
  }

  predicate AllWellFormed(regions: seq<RegionInfo>)
  {
    forall r :: 0 <= r < |regions| ==> WellFormed(regions[r])
  }

  /** A level vector: one level in [0, NumRows] per region. */
  predicate LevelsInRange(regions: seq<RegionInfo>, levels: seq<int>)
  {
    |levels| == |regions| && forall r :: 0 <= r < |regions| ==> 0 <= levels[r] <= regions[r].numRows
  }

  /** No cell belongs to two regions. */
  ghost predicate Disjoint(regions: seq<RegionInfo>)
  {
    forall r1, r2, c :: 0 <= r1 < |regions| && 0 <= r2 < |regions| && r1 != r2 && c in regions[r1].cells ==>
      c !in regions[r2].cells
  }

  /** Every cell belongs to some region. */
  ghost predicate Covering(regions: seq<RegionInfo>)
  {
    forall c :: 0 <= c < N ==> InSomeRegion(regions, c)
  }

  ghost predicate InSomeRegion(regions: seq<RegionInfo>, c: int)
  {
    exists r :: 0 <= r < |regions| && c in regions[r].cells
  }

  /** The cell is a wet cell of some region. */
  predicate WaterAt(regions: seq<RegionInfo>, levels: seq<int>, c: int)
    requires |levels| == |regions|
  {
    exists r :: 0 <= r < |regions| && c in regions[r].cells && Wet(regions[r], levels[r], c)
  }

  /** The solution board as a function of the levels (what `MakeSolutionBoard` computes). */
  function SolutionBoard(regions: seq<RegionInfo>, levels: seq<int>): (b: seq<bool>)
    requires |levels| == |regions|
    ensures |b| == N
  {
    seq(N, c requires 0 <= c < N => WaterAt(regions, levels, c))
  }

  /** `solutionLevels`: one draw from [0, BottomRow - TopRow + 2) per region, in order. */
  function DrawLevels(regions: seq<RegionInfo>, draws: seq<nat>): (r: Option<(seq<int>, seq<nat>)>)
    requires AllWellFormed(regions)
    ensures r.Some? ==> LevelsInRange(regions, r.value.0) && |r.value.1| <= |draws|
  {
    if regions == [] then Some(([], draws))
    else
      var last := regions[|regions| - 1];
      match DrawLevels(regions[..|regions| - 1], draws)
      case None => None
      case Some((levels, rest)) =>
        match Range(rest, last.bottomRow - last.topRow + 2)
        case None => None
        case Some((level, rest')) => Some((levels + [level], rest'))
  }

  method MakeSolutionBoard(regions: seq<RegionInfo>, levels: seq<int>) returns (board: seq<bool>)
    requires |levels| == |regions| && AllWellFormed(regions)
    ensures board == SolutionBoard(regions, levels)
  {
    var b := new bool[N](_ => false);
    for regIx := 0 to |regions|
      invariant forall c :: 0 <= c < N ==>
        (b[c] <==> exists r :: 0 <= r < regIx && c in regions[r].cells && Wet(regions[r], levels[r], c))
    {
      var cells := regions[regIx].cells;
      for k := 0 to |cells|
        invariant forall c :: 0 <= c < N ==>
          (b[c] <==>
            || (exists r :: 0 <= r < regIx && c in regions[r].cells && Wet(regions[r], levels[r], c))
            || (exists p :: 0 <= p < k && cells[p] == c && Wet(regions[regIx], levels[regIx], c)))
      {
        var cell := cells[k];
        if cell / W > regions[regIx].bottomRow - levels[regIx] {
          b[cell] := true;
        }
      }
    }
    board := b[..];
  }

  /**
   * On a partition the board reads each cell's own region: a cell is water
   * iff it lies below its region's water line.
   */
  lemma BoardOfPartition(regions: seq<RegionInfo>, levels: seq<int>, r: int, c: int)
    requires |levels| == |regions| && Disjoint(regions)
    requires 0 <= r < |regions| && c in regions[r].cells && IsCell(c)
    ensures SolutionBoard(regions, levels)[c] <==> Wet(regions[r], levels[r], c)
  {
  }

  /**
   * The water of one region settles at the bottom: level 0 leaves it dry,
   * level NumRows fills it, and a wet cell has only wet cells of its region
   * in its own row and below it.
   */
  lemma WaterSettles(info: RegionInfo, level: int)
    requires WellFormed(info) && 0 <= level <= info.numRows
    ensures level == 0 ==> forall c :: c in info.cells ==> !Wet(info, level, c)
    ensures level == info.numRows ==> forall c :: c in info.cells ==> Wet(info, level, c)
    ensures forall c, d :: c in info.cells && d in info.cells && Wet(info, level, c) && Row(d) >= Row(c) ==>
      Wet(info, level, d)
  {
    assert forall k :: 0 <= k < |info.cells| ==> info.cells[0] <= info.cells[k] <= info.cells[|info.cells| - 1];
  }

  // ---------------------------------------------------------------------------
  // Clues
  // ---------------------------------------------------------------------------

  datatype Axis = Horiz | Vert

  /** The k-th cell of a row (Horiz) or a column (Vert), in the order the count scans it. */
  function CellAt(axis: Axis, idx: int, k: int): int
  {
    if axis == Horiz then k + W * idx else idx + W * k
  }

  /** Whether a cell lies on the given row or column. */
  predicate OnLine(axis: Axis, idx: int, c: int)
  {
    if axis == Horiz then Row(c) == idx else Col(c) == idx
  }

  /** `Enumerable.Range(0, n).Count(k => _solution[cell k of the line])`. */
  function LineCount(board: seq<bool>, axis: Axis, idx: int, n: nat): (r: nat)
    requires |board| == N && 0 <= idx < 6 && n <= 6
    ensures r <= n
  {
    if n == 0 then 0
    else LineCount(board, axis, idx, n - 1) + (if board[CellAt(axis, idx, n - 1)] then 1 else 0)
  }

  /** A clue is shown only when its count is neither 0 nor the full line length. */
  function Clue(count: int, full: int): Option<int>
  {
    if count == 0 || count == full then None else Some(count)
  }

  /** `horizClues` (axis Horiz) or `vertClues` (axis Vert). */
  function Clues(board: seq<bool>, axis: Axis): (r: seq<Option<int>>)
    requires |board| == N
    ensures |r| == 6
    ensures forall idx :: 0 <= idx < 6 ==>
      (r[idx].None? <==> LineCount(board, axis, idx, 6) in {0, 6})
      && (r[idx].Some? ==> r[idx].value == LineCount(board, axis, idx, 6) && 0 < r[idx].value < 6)
  {
    seq(6, idx requires 0 <= idx < 6 => Clue(LineCount(board, axis, idx, 6), 6))
  }

  /** The cells of the first n positions of a line that hold water. */
  function LinePrefix(board: seq<bool>, axis: Axis, idx: int, n: nat): set<int>
    requires |board| == N && 0 <= idx < 6 && n <= 6
  {
    if n == 0 then {}
    else if board[CellAt(axis, idx, n - 1)] then LinePrefix(board, axis, idx, n - 1) + {CellAt(axis, idx, n - 1)}
    else LinePrefix(board, axis, idx, n - 1)
  }

  lemma {:induction false} LinePrefixCount(board: seq<bool>, axis: Axis, idx: int, n: nat)
    requires |board| == N && 0 <= idx < 6 && n <= 6
    ensures |LinePrefix(board, axis, idx, n)| == LineCount(board, axis, idx, n)
  {
    if n > 0 {
      LinePrefixCount(board, axis, idx, n - 1);
      LinePrefixAhead(board, axis, idx, n - 1, n - 1);
    }
  }

  /** The set of the first n positions holds none of the later positions' cells. */
  lemma {:induction false} LinePrefixAhead(board: seq<bool>, axis: Axis, idx: int, n: nat, j: int)
    requires |board| == N && 0 <= idx < 6 && n <= j < 6
    ensures CellAt(axis, idx, j) !in LinePrefix(board, axis, idx, n)
  {
    if n > 0 {
      LinePrefixAhead(board, axis, idx, n - 1, j);
    }
  }

  /** Every cell of the set is a water cell of the line. */
  lemma {:induction false} LinePrefixWater(board: seq<bool>, axis: Axis, idx: int, n: nat)
    requires |board| == N && 0 <= idx < 6 && n <= 6
    ensures forall x :: x in LinePrefix(board, axis, idx, n) ==> 0 <= x < N && OnLine(axis, idx, x) && board[x]
  {
    if n > 0 {
      LinePrefixWater(board, axis, idx, n - 1);
      CellAtOnLine(axis, idx, n - 1);
    }
  }

  lemma CellAtOnLine(axis: Axis, idx: int, k: int)
    requires 0 <= idx < 6 && 0 <= k < 6
    ensures 0 <= CellAt(axis, idx, k) < N && OnLine(axis, idx, CellAt(axis, idx, k))
  {
  }

  /** Every water cell among the first n positions is in the set. */
  lemma {:induction false} LinePrefixHas(board: seq<bool>, axis: Axis, idx: int, n: nat, k: int)
    requires |board| == N && 0 <= idx < 6 && 0 <= k < n <= 6
    requires board[CellAt(axis, idx, k)]
    ensures CellAt(axis, idx, k) in LinePrefix(board, axis, idx, n)
  {
    if k < n - 1 {
      LinePrefixHas(board, axis, idx, n - 1, k);
    }
  }

  /** The water cells of a row or column, as a set of cells. */
  ghost function WaterOnLine(board: seq<bool>, axis: Axis, idx: int): set<int>
    requires |board| == N
  {
    set c | 0 <= c < N && OnLine(axis, idx, c) && board[c]
  }

  /**
   * Reference reading of a clue count: the number of water cells on the row
   * or column.
   */
  lemma LineCountIsWater(board: seq<bool>, axis: Axis, idx: int)
    requires |board| == N && 0 <= idx < 6
    ensures LineCount(board, axis, idx, 6) == |WaterOnLine(board, axis, idx)|
  {
    LinePrefixCount(board, axis, idx, 6);
    LinePrefixWater(board, axis, idx, 6);
    forall c | c in WaterOnLine(board, axis, idx)
      ensures c in LinePrefix(board, axis, idx, 6)
    {
      var k := if axis == Horiz then Col(c) else Row(c);
      assert c == CellAt(axis, idx, k);
      LinePrefixHas(board, axis, idx, 6, k);
    }
    assert LinePrefix(board, axis, idx, 6) == WaterOnLine(board, axis, idx);
  }
}
