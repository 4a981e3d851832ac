/**
 * `solveRecurse`: the backtracking solver. `sofar` holds a level or null per
 * region; the solver picks the first unassigned region with the fewest rows,
 * tries its levels in ascending order, prunes a level when a clue falls
 * outside the [min, max] water bounds of its row or column, and recurses.
 */
module Solver {
  import opened Opt
  import opened Grid
  import opened RegionInfos
  import opened Composer

  // ---------------------------------------------------------------------------
  // Water counts per row and column
  // ---------------------------------------------------------------------------

  /** Cells of the first k cells of a region that lie on the line. */
  function LineCells(info: RegionInfo, axis: Axis, idx: int, k: nat): nat
    requires k <= |info.cells|
  {
    if k == 0 then 0
    else LineCells(info, axis, idx, k - 1) + (if OnLine(axis, idx, info.cells[k - 1]) then 1 else 0)
  }

  /** Wet cells, at the given level, of the first k cells of a region that lie on the line. */
  function WetCount(info: RegionInfo, level: int, axis: Axis, idx: int, k: nat): (n: nat)
    requires k <= |info.cells|
    ensures n <= LineCells(info, axis, idx, k)
  {
    if k == 0 then 0
    else
      WetCount(info, level, axis, idx, k - 1)
      + (if OnLine(axis, idx, info.cells[k - 1]) && Wet(info, level, info.cells[k - 1]) then 1 else 0)
  }

  /** What the first k cells of a region add to a line's minimum: their exact water if assigned, else nothing. */
  function PartMin(info: RegionInfo, lvl: Option<int>, axis: Axis, idx: int, k: nat): nat
    requires k <= |info.cells|
  {
    if lvl.None? then 0 else WetCount(info, lvl.value, axis, idx, k)
  }

  /** What the first k cells of a region add to a line's maximum: their exact water if assigned, else every cell. */
  function PartMax(info: RegionInfo, lvl: Option<int>, axis: Axis, idx: int, k: nat): nat
    requires k <= |info.cells|
  {
    if lvl.None? then LineCells(info, axis, idx, k) else WetCount(info, lvl.value, axis, idx, k)
  }

  function SumMin(regions: seq<RegionInfo>, sofar: seq<Option<int>>, axis: Axis, idx: int, n: nat): nat
    requires n <= |regions| && |sofar| == |regions|
  {
    if n == 0 then 0
    else SumMin(regions, sofar, axis, idx, n - 1) + PartMin(regions[n - 1], sofar[n - 1], axis, idx, |regions[n - 1].cells|)
  }

  function SumMax(regions: seq<RegionInfo>, sofar: seq<Option<int>>, axis: Axis, idx: int, n: nat): nat
    requires n <= |regions| && |sofar| == |regions|
  {
    if n == 0 then 0
    else SumMax(regions, sofar, axis, idx, n - 1) + PartMax(regions[n - 1], sofar[n - 1], axis, idx, |regions[n - 1].cells|)
  }

  /** The water a full level vector puts on a row or column, region by region. */
  function LineWater(regions: seq<RegionInfo>, levels: seq<int>, axis: Axis, idx: int, n: nat): nat
    requires n <= |regions| && |levels| == |regions|
  {
    if n == 0 then 0
    else LineWater(regions, levels, axis, idx, n - 1) + WetCount(regions[n - 1], levels[n - 1], axis, idx, |regions[n - 1].cells|)
  }

  predicate Within(clue: Option<int>, lo: int, hi: int)
  {
    clue.None? || (lo <= clue.value <= hi)
  }

  predicate ClueShape(hc: seq<Option<int>>, vc: seq<Option<int>>)
  {
    |hc| == 6 && |vc| == 6
  }

  /** No present clue falls outside the bounds of its row or column (the pruning test). */
  predicate Fits(regions: seq<RegionInfo>, sofar: seq<Option<int>>, hc: seq<Option<int>>, vc: seq<Option<int>>)
    requires |sofar| == |regions| && ClueShape(hc, vc)
  {
    forall idx :: 0 <= idx < 6 ==>
      && Within(hc[idx], SumMin(regions, sofar, Horiz, idx, |regions|), SumMax(regions, sofar, Horiz, idx, |regions|))
      && Within(vc[idx], SumMin(regions, sofar, Vert, idx, |regions|), SumMax(regions, sofar, Vert, idx, |regions|))
  }

  predicate Matches(clue: Option<int>, count: int)
  {
    clue.None? || clue.value == count
  }

  /** A level vector solves the clues: levels in range and every present clue met exactly. */
  predicate Consistent(regions: seq<RegionInfo>, levels: seq<int>, hc: seq<Option<int>>, vc: seq<Option<int>>)
    requires ClueShape(hc, vc)
  {
    && LevelsInRange(regions, levels)
    && forall idx :: 0 <= idx < 6 ==>
      && Matches(hc[idx], LineWater(regions, levels, Horiz, idx, |regions|))
      && Matches(vc[idx], LineWater(regions, levels, Vert, idx, |regions|))
  }

  /** A full level vector agrees with every assigned entry. */
  predicate Extends(levels: seq<int>, sofar: seq<Option<int>>)
  {
    |levels| == |sofar| && forall r :: 0 <= r < |sofar| && sofar[r].Some? ==> levels[r] == sofar[r].value
  }

  /** Every assigned entry is a level in range. */
  predicate AssignedInRange(regions: seq<RegionInfo>, sofar: seq<Option<int>>)
  {
    |sofar| == |regions| && forall r :: 0 <= r < |sofar| && sofar[r].Some? ==> 0 <= sofar[r].value <= regions[r].numRows
  }

  // ---------------------------------------------------------------------------
  // The search
  // ---------------------------------------------------------------------------

  function NoneCount(s: seq<Option<int>>): nat
  {
    if s == [] then 0 else NoneCount(s[..|s| - 1]) + (if s[|s| - 1].None? then 1 else 0)
  }

  lemma {:induction false} NoneCountAssign(s: seq<Option<int>>, b: int, v: int)
    requires 0 <= b < |s| && s[b].None?
    ensures NoneCount(s[b := Some(v)]) == NoneCount(s) - 1
  {
    var t := s[b := Some(v)];
    if b < |s| - 1 {
      assert t[..|t| - 1] == s[..|s| - 1][b := Some(v)];
      NoneCountAssign(s[..|s| - 1], b, v);
    } else {
      assert t[..|t| - 1] == s[..|s| - 1];
    }
  }

  /** No entry is unassigned exactly when every entry is assigned. */
  lemma {:induction false} NoneCountFull(s: seq<Option<int>>)
    ensures NoneCount(s) == 0 <==> forall r :: 0 <= r < |s| ==> s[r].Some?
  {
    if s != [] {
      NoneCountFull(s[..|s| - 1]);
      assert forall r :: 0 <= r < |s| - 1 ==> s[r] == s[..|s| - 1][r];
    }
  }

  /** The region-selection loop over the first n entries: the best index so far (-1 for none) and its row count. */
  function BestScan(regions: seq<RegionInfo>, sofar: seq<Option<int>>, n: nat): (int, int)
    requires n <= |sofar| == |regions|
  {
    if n == 0 then (-1, H + 1)
    else
      var (b, s) := BestScan(regions, sofar, n - 1);
      if sofar[n - 1].None? && regions[n - 1].numRows < s then (n - 1, regions[n - 1].numRows) else (b, s)
  }

  function Best(regions: seq<RegionInfo>, sofar: seq<Option<int>>): int
    requires |sofar| == |regions|
  {
    BestScan(regions, sofar, |regions|).0
  }

  lemma NumRowsBounds(info: RegionInfo)
    requires WellFormed(info)
    ensures 1 <= info.numRows <= H
  {
    assert IsCell(info.cells[0]) && IsCell(info.cells[|info.cells| - 1]);
    if |info.cells| > 1 {
      assert info.cells[0] < info.cells[|info.cells| - 1];
    }
  }

  /**
   * (b, s) is what the selection loop holds after n entries: -1 exactly when
   * all of them are assigned, and otherwise the first unassigned region with
   * the fewest rows, s being its row count.
   */
  ghost predicate ScanFacts(regions: seq<RegionInfo>, sofar: seq<Option<int>>, n: nat, b: int, s: int)
    requires n <= |sofar| == |regions|
  {
    && (b == -1 <==> forall r :: 0 <= r < n ==> sofar[r].Some?)
    && (b == -1 ==> s == H + 1)
    && (b != -1 ==>
      && 0 <= b < n && sofar[b].None? && s == regions[b].numRows
      && (forall r :: 0 <= r < n && sofar[r].None? ==> regions[b].numRows <= regions[r].numRows)
      && (forall r :: 0 <= r < b && sofar[r].None? ==> regions[b].numRows < regions[r].numRows))
  }

  lemma {:induction false} BestScanFacts(regions: seq<RegionInfo>, sofar: seq<Option<int>>, n: nat)
    requires n <= |sofar| == |regions| && AllWellFormed(regions)
    ensures ScanFacts(regions, sofar, n, BestScan(regions, sofar, n).0, BestScan(regions, sofar, n).1)
  {
    if n > 0 {
      BestScanFacts(regions, sofar, n - 1);
      NumRowsBounds(regions[n - 1]);
      var (b, s) := BestScan(regions, sofar, n - 1);
      if sofar[n - 1].None? && regions[n - 1].numRows < s {
        ScanTakes(regions, sofar, n, b, s);
      } else {
        ScanKeeps(regions, sofar, n, b, s);
      }
    }
  }

  /** An unassigned region with fewer rows than the best so far becomes the best. */
  lemma ScanTakes(regions: seq<RegionInfo>, sofar: seq<Option<int>>, n: nat, b: int, s: int)
    requires 0 < n <= |sofar| == |regions| && ScanFacts(regions, sofar, n - 1, b, s)
    requires sofar[n - 1].None? && 1 <= regions[n - 1].numRows < s
    ensures ScanFacts(regions, sofar, n, n - 1, regions[n - 1].numRows)
  {
  }

  /** Any other region leaves the best so far in place. */
  lemma ScanKeeps(regions: seq<RegionInfo>, sofar: seq<Option<int>>, n: nat, b: int, s: int)
    requires 0 < n <= |sofar| == |regions| && ScanFacts(regions, sofar, n - 1, b, s)
    requires regions[n - 1].numRows <= H
    requires !(sofar[n - 1].None? && regions[n - 1].numRows < s)
    ensures ScanFacts(regions, sofar, n, b, s)
  {
  }

  /**
   * The branching region is the lowest-index unassigned region with the
   * fewest rows; there is none exactly when every region is assigned.
   */
  lemma BestIsFirstMinimal(regions: seq<RegionInfo>, sofar: seq<Option<int>>)
    requires |sofar| == |regions| && AllWellFormed(regions)
    ensures var b := Best(regions, sofar);
      && (b == -1 <==> forall r :: 0 <= r < |sofar| ==> sofar[r].Some?)
      && (b != -1 ==>
        && 0 <= b < |sofar| && sofar[b].None?
        && (forall r :: 0 <= r < |sofar| && sofar[r].None? ==> regions[b].numRows <= regions[r].numRows)
        && (forall r :: 0 <= r < b && sofar[r].None? ==> regions[b].numRows < regions[r].numRows))
  {
    BestScanFacts(regions, sofar, |regions|);
  }

  /** Once a one-row region has been found, the rest of the scan cannot change it (the `goto shortcut`). */
  lemma {:induction false} BestScanShortcut(regions: seq<RegionInfo>, sofar: seq<Option<int>>, n: nat, m: nat)
    requires n <= m <= |sofar| == |regions| && AllWellFormed(regions)
    requires BestScan(regions, sofar, n).1 == 1
    ensures BestScan(regions, sofar, m) == BestScan(regions, sofar, n)
    decreases m - n
  {
    if n < m {
      BestScanShortcut(regions, sofar, n, m - 1);
      NumRowsBounds(regions[m - 1]);
    }
  }

  function Values(sofar: seq<Option<int>>): (r: seq<int>)
    requires forall i :: 0 <= i < |sofar| ==> sofar[i].Some?
    ensures Extends(r, sofar)
  {
    seq(|sofar|, i requires 0 <= i < |sofar| => sofar[i].value)
  }

  predicate Ready(regions: seq<RegionInfo>, sofar: seq<Option<int>>, hc: seq<Option<int>>, vc: seq<Option<int>>)
  {
    AllWellFormed(regions) && |sofar| == |regions| && ClueShape(hc, vc)
  }

  /** Every solution `solveRecurse` yields from `sofar`, in order. */
  function Solve(regions: seq<RegionInfo>, sofar: seq<Option<int>>, hc: seq<Option<int>>, vc: seq<Option<int>>): seq<seq<int>>
    requires Ready(regions, sofar, hc, vc)
    decreases NoneCount(sofar), 1, 0
  {
    BestIsFirstMinimal(regions, sofar);
    var b := Best(regions, sofar);
    if b == -1 then [Values(sofar)]
    else Levels(regions, sofar, hc, vc, b, 0)
  }

  /** The `for (level = 0; level <= smallestSize; level++)` loop from a given level on. */
  function Levels(regions: seq<RegionInfo>, sofar: seq<Option<int>>, hc: seq<Option<int>>, vc: seq<Option<int>>, b: int, level: nat)
    : seq<seq<int>>
    requires Ready(regions, sofar, hc, vc) && 0 <= b < |sofar| && sofar[b].None?
    decreases NoneCount(sofar), 0, regions[b].numRows + 1 - level
  {
    if level > regions[b].numRows then []
    else LevelResult(regions, sofar, hc, vc, b, level) + Levels(regions, sofar, hc, vc, b, level + 1)
  }

  /** One pass of that loop: the solutions below region b at this level, or none when pruned. */
  function LevelResult(regions: seq<RegionInfo>, sofar: seq<Option<int>>, hc: seq<Option<int>>, vc: seq<Option<int>>, b: int, level: nat)
    : seq<seq<int>>
    requires Ready(regions, sofar, hc, vc) && 0 <= b < |sofar| && sofar[b].None?
    decreases NoneCount(sofar), 0, 0
  {
    var s' := sofar[b := Some(level)];
    NoneCountAssign(sofar, b, level);
    if Fits(regions, s', hc, vc) then Solve(regions, s', hc, vc) else []
  }

  lemma SolveUnfold(regions: seq<RegionInfo>, sofar: seq<Option<int>>, hc: seq<Option<int>>, vc: seq<Option<int>>)
    requires Ready(regions, sofar, hc, vc)
    requires var b := Best(regions, sofar); 0 <= b < |sofar| && sofar[b].None?
    ensures Solve(regions, sofar, hc, vc) == Levels(regions, sofar, hc, vc, Best(regions, sofar), 0)
  {
  }

  // ---------------------------------------------------------------------------
  // What the search finds
  // ---------------------------------------------------------------------------

  predicate FullyAssigned(sofar: seq<Option<int>>)
  {
    forall r :: 0 <= r < |sofar| ==> sofar[r].Some?
  }

  predicate NoDup(xs: seq<seq<int>>)
  {
    forall i, j :: 0 <= i < j < |xs| ==> xs[i] != xs[j]
  }

  function AllNone(n: nat): (s: seq<Option<int>>)
    ensures |s| == n && NoneCount(s) == n && forall r :: 0 <= r < n ==> s[r].None?
  {
    if n == 0 then [] else
      var s := AllNone(n - 1) + [None];
      assert s[..|s| - 1] == AllNone(n - 1);
      s
  }

  /** For any full assignment extending `sofar`, each line's water lies between the bounds. */
  lemma {:induction false} SumBounds(regions: seq<RegionInfo>, sofar: seq<Option<int>>, levels: seq<int>, axis: Axis, idx: int, n: nat)
    requires n <= |regions| == |sofar| && Extends(levels, sofar)
    ensures SumMin(regions, sofar, axis, idx, n) <= LineWater(regions, levels, axis, idx, n) <= SumMax(regions, sofar, axis, idx, n)
  {
    if n > 0 {
      SumBounds(regions, sofar, levels, axis, idx, n - 1);
    }
  }

  /** With every region assigned, the bounds meet at the exact water count. */
  lemma {:induction false} SumExact(regions: seq<RegionInfo>, sofar: seq<Option<int>>, axis: Axis, idx: int, n: nat)
    requires n <= |regions| == |sofar| && FullyAssigned(sofar)
    ensures SumMin(regions, sofar, axis, idx, n) == LineWater(regions, Values(sofar), axis, idx, n)
    ensures SumMax(regions, sofar, axis, idx, n) == LineWater(regions, Values(sofar), axis, idx, n)
  {
    if n > 0 {
      SumExact(regions, sofar, axis, idx, n - 1);
    }
  }

  /** `horizMin[row] <= horizMax[row]` and likewise for columns, whatever is assigned. */
  lemma {:induction false} MinAtMostMax(regions: seq<RegionInfo>, sofar: seq<Option<int>>, axis: Axis, idx: int, n: nat)
    requires n <= |regions| == |sofar|
    ensures SumMin(regions, sofar, axis, idx, n) <= SumMax(regions, sofar, axis, idx, n)
  {
    if n > 0 {
      MinAtMostMax(regions, sofar, axis, idx, n - 1);
    }
  }

  /** A full assignment that passes the pruning test meets every clue. */
  lemma FitsFull(regions: seq<RegionInfo>, sofar: seq<Option<int>>, hc: seq<Option<int>>, vc: seq<Option<int>>)
    requires Ready(regions, sofar, hc, vc) && FullyAssigned(sofar) && AssignedInRange(regions, sofar)
    requires Fits(regions, sofar, hc, vc)
    ensures Consistent(regions, Values(sofar), hc, vc)
  {
    forall idx | 0 <= idx < 6
      ensures Matches(hc[idx], LineWater(regions, Values(sofar), Horiz, idx, |regions|))
      ensures Matches(vc[idx], LineWater(regions, Values(sofar), Vert, idx, |regions|))
    {
      SumExact(regions, sofar, Horiz, idx, |regions|);
      SumExact(regions, sofar, Vert, idx, |regions|);
    }
  }

  /** A solution extending `sofar` passes the pruning test at `sofar`. */
  lemma ConsistentFits(regions: seq<RegionInfo>, sofar: seq<Option<int>>, hc: seq<Option<int>>, vc: seq<Option<int>>, levels: seq<int>)
    requires Ready(regions, sofar, hc, vc) && Consistent(regions, levels, hc, vc) && Extends(levels, sofar)
    ensures Fits(regions, sofar, hc, vc)
  {
    forall idx | 0 <= idx < 6
      ensures Within(hc[idx], SumMin(regions, sofar, Horiz, idx, |regions|), SumMax(regions, sofar, Horiz, idx, |regions|))
      ensures Within(vc[idx], SumMin(regions, sofar, Vert, idx, |regions|), SumMax(regions, sofar, Vert, idx, |regions|))
    {
      SumBounds(regions, sofar, levels, Horiz, idx, |regions|);
      SumBounds(regions, sofar, levels, Vert, idx, |regions|);
    }
  }

  /** Soundness: every level vector the search yields meets the clues and keeps the levels already fixed. */
  lemma {:induction false} SolveSound(regions: seq<RegionInfo>, sofar: seq<Option<int>>, hc: seq<Option<int>>, vc: seq<Option<int>>, t: seq<int>)
    requires Ready(regions, sofar, hc, vc) && AssignedInRange(regions, sofar)
    requires FullyAssigned(sofar) ==> Consistent(regions, Values(sofar), hc, vc)
    requires t in Solve(regions, sofar, hc, vc)
    ensures Consistent(regions, t, hc, vc) && Extends(t, sofar)
    decreases NoneCount(sofar), 1, 0
  {
    BestIsFirstMinimal(regions, sofar);
    var b := Best(regions, sofar);
    if b != -1 {
      LevelsSound(regions, sofar, hc, vc, b, 0, t);
    }
  }

  lemma {:induction false} LevelsSound(regions: seq<RegionInfo>, sofar: seq<Option<int>>, hc: seq<Option<int>>, vc: seq<Option<int>>,
                                       b: int, level: nat, t: seq<int>)
    requires Ready(regions, sofar, hc, vc) && 0 <= b < |sofar| && sofar[b].None? && AssignedInRange(regions, sofar)
    requires t in Levels(regions, sofar, hc, vc, b, level)
    ensures Consistent(regions, t, hc, vc) && Extends(t, sofar)
    decreases NoneCount(sofar), 0, regions[b].numRows + 1 - level
  {
    if level <= regions[b].numRows {
      if t in LevelResult(regions, sofar, hc, vc, b, level) {
        LevelResultSound(regions, sofar, hc, vc, b, level, t);
      } else {
        LevelsSound(regions, sofar, hc, vc, b, level + 1, t);
      }
    }
  }

  /** A level vector found below the assignment of one level to region b is sound. */
  lemma {:induction false} LevelResultSound(regions: seq<RegionInfo>, sofar: seq<Option<int>>, hc: seq<Option<int>>, vc: seq<Option<int>>,
                                            b: int, level: nat, t: seq<int>)
    requires Ready(regions, sofar, hc, vc) && 0 <= b < |sofar| && sofar[b].None? && AssignedInRange(regions, sofar)
    requires level <= regions[b].numRows && t in LevelResult(regions, sofar, hc, vc, b, level)
    ensures Consistent(regions, t, hc, vc) && Extends(t, sofar)
    decreases NoneCount(sofar), 0, 0
  {
    var s' := sofar[b := Some(level)];
    NoneCountAssign(sofar, b, level);
    assert Fits(regions, s', hc, vc);
    if FullyAssigned(s') {
      FitsFull(regions, s', hc, vc);
    }
    SolveSound(regions, s', hc, vc, t);
  }

  /** Completeness: every level vector that meets the clues and keeps the fixed levels is yielded. */
  lemma {:induction false} SolveComplete(regions: seq<RegionInfo>, sofar: seq<Option<int>>, hc: seq<Option<int>>, vc: seq<Option<int>>, t: seq<int>)
    requires Ready(regions, sofar, hc, vc) && Consistent(regions, t, hc, vc) && Extends(t, sofar)
    ensures t in Solve(regions, sofar, hc, vc)
    decreases NoneCount(sofar), 1, 0
  {
    BestIsFirstMinimal(regions, sofar);
    var b := Best(regions, sofar);
    if b == -1 {
      assert t == Values(sofar);
    } else {
      LevelsComplete(regions, sofar, hc, vc, b, 0, t);
    }
  }

  lemma {:induction false} LevelsComplete(regions: seq<RegionInfo>, sofar: seq<Option<int>>, hc: seq<Option<int>>, vc: seq<Option<int>>,
                                          b: int, level: nat, t: seq<int>)
    requires Ready(regions, sofar, hc, vc) && 0 <= b < |sofar| && sofar[b].None?
    requires Consistent(regions, t, hc, vc) && Extends(t, sofar) && level <= t[b]
    ensures t in Levels(regions, sofar, hc, vc, b, level)
    decreases NoneCount(sofar), 0, regions[b].numRows + 1 - level
  {
    if level < t[b] {
      LevelsComplete(regions, sofar, hc, vc, b, level + 1, t);
    } else {
      var s' := sofar[b := Some(level)];
      NoneCountAssign(sofar, b, level);
      assert Extends(t, s');
      ConsistentFits(regions, s', hc, vc, t);
      SolveComplete(regions, s', hc, vc, t);
    }
  }

  /** Every vector the search yields keeps the levels already fixed; one from the level loop has b at or above that level. */
  lemma {:induction false} SolveExtends(regions: seq<RegionInfo>, sofar: seq<Option<int>>, hc: seq<Option<int>>, vc: seq<Option<int>>)
    requires Ready(regions, sofar, hc, vc)
    ensures forall t :: t in Solve(regions, sofar, hc, vc) ==> Extends(t, sofar)
    decreases NoneCount(sofar), 1, 0
  {
    BestIsFirstMinimal(regions, sofar);
    var b := Best(regions, sofar);
    if b != -1 {
      LevelsExtends(regions, sofar, hc, vc, b, 0);
    }
  }

  lemma {:induction false} LevelsExtends(regions: seq<RegionInfo>, sofar: seq<Option<int>>, hc: seq<Option<int>>, vc: seq<Option<int>>,
                                         b: int, level: nat)
    requires Ready(regions, sofar, hc, vc) && 0 <= b < |sofar| && sofar[b].None?
    ensures forall t :: t in Levels(regions, sofar, hc, vc, b, level) ==> Extends(t, sofar) && level <= t[b]
    decreases NoneCount(sofar), 0, regions[b].numRows + 1 - level
  {
    if level <= regions[b].numRows {
      var s' := sofar[b := Some(level)];
      NoneCountAssign(sofar, b, level);
      SolveExtends(regions, s', hc, vc);
      LevelsExtends(regions, sofar, hc, vc, b, level + 1);
      assert Levels(regions, sofar, hc, vc, b, level)
        == LevelResult(regions, sofar, hc, vc, b, level) + Levels(regions, sofar, hc, vc, b, level + 1);
      forall t | t in LevelResult(regions, sofar, hc, vc, b, level)
        ensures Extends(t, sofar) && level == t[b]
      {
        assert Fits(regions, s', hc, vc) && t in Solve(regions, s', hc, vc);
      }
    }
  }

  /**
   * No level vector is yielded twice, and within one level loop the
   * branching region's level never decreases along the output.
   */
  lemma {:induction false} SolveNoDup(regions: seq<RegionInfo>, sofar: seq<Option<int>>, hc: seq<Option<int>>, vc: seq<Option<int>>)
    requires Ready(regions, sofar, hc, vc)
    ensures NoDup(Solve(regions, sofar, hc, vc))
    decreases NoneCount(sofar), 1, 0
  {
    BestIsFirstMinimal(regions, sofar);
    var b := Best(regions, sofar);
    if b != -1 {
      LevelsNoDup(regions, sofar, hc, vc, b, 0);
    }
  }

  lemma {:induction false} LevelsNoDup(regions: seq<RegionInfo>, sofar: seq<Option<int>>, hc: seq<Option<int>>, vc: seq<Option<int>>,
                                       b: int, level: nat)
    requires Ready(regions, sofar, hc, vc) && 0 <= b < |sofar| && sofar[b].None?
    ensures var xs := Levels(regions, sofar, hc, vc, b, level);
      && (forall t :: t in xs ==> |t| == |sofar|)
      && NoDup(xs)
      && (forall i, j :: 0 <= i < j < |xs| ==> xs[i][b] <= xs[j][b])
    decreases NoneCount(sofar), 0, regions[b].numRows + 1 - level
  {
    if level <= regions[b].numRows {
      var here := LevelResult(regions, sofar, hc, vc, b, level);
      var rest := Levels(regions, sofar, hc, vc, b, level + 1);
      LevelResultNoDup(regions, sofar, hc, vc, b, level);
      LevelsNoDup(regions, sofar, hc, vc, b, level + 1);
      LevelsExtends(regions, sofar, hc, vc, b, level + 1);
      assert forall t :: t in rest ==> |t| == |sofar| && t[b] > level;
      JoinLevels(here, rest, b, level, |sofar|);
    }
  }

  /** One pass of the level loop yields no vector twice, each with region b at that level. */
  lemma LevelResultNoDup(regions: seq<RegionInfo>, sofar: seq<Option<int>>, hc: seq<Option<int>>, vc: seq<Option<int>>,
                         b: int, level: nat)
    requires Ready(regions, sofar, hc, vc) && 0 <= b < |sofar| && sofar[b].None?
    ensures var here := LevelResult(regions, sofar, hc, vc, b, level);
      NoDup(here) && forall t :: t in here ==> |t| == |sofar| && t[b] == level
    decreases NoneCount(sofar), 0, 0
  {
    var s' := sofar[b := Some(level)];
    NoneCountAssign(sofar, b, level);
    if Fits(regions, s', hc, vc) {
      SolveExtends(regions, s', hc, vc);
      SolveNoDup(regions, s', hc, vc);
    }
  }

  /**
   * The solutions at one level, all with that level at b, followed by the
   * solutions at higher levels keep the three facts `LevelsNoDup` states.
   */
  lemma JoinLevels(here: seq<seq<int>>, rest: seq<seq<int>>, b: int, level: int, width: int)
    requires 0 <= b < width
    requires NoDup(here) && NoDup(rest)
    requires forall t :: t in here ==> |t| == width && t[b] == level
    requires forall t :: t in rest ==> |t| == width && t[b] > level
    requires forall i, j :: 0 <= i < j < |rest| ==> rest[i][b] <= rest[j][b]
    ensures var xs := here + rest;
      && (forall t :: t in xs ==> |t| == width)
      && NoDup(xs)
      && (forall i, j :: 0 <= i < j < |xs| ==> xs[i][b] <= xs[j][b])
  {
    var xs := here + rest;
    forall i, j | 0 <= i < j < |xs|
      ensures xs[i] != xs[j] && xs[i][b] <= xs[j][b]
    {
      if j < |here| {
        assert xs[i] == here[i] && xs[j] == here[j];
        assert here[i] in here && here[j] in here;
      } else if i >= |here| {
        assert xs[i] == rest[i - |here|] && xs[j] == rest[j - |here|];
      } else {
        assert xs[i] == here[i] && xs[j] == rest[j - |here|];
        assert here[i] in here && rest[j - |here|] in rest;
      }
    }
  }

  /**
   * `solveRecurse` from the all-null assignment yields exactly the level
   * vectors that meet the clues, each once.
   */
  lemma SolveExact(regions: seq<RegionInfo>, hc: seq<Option<int>>, vc: seq<Option<int>>)
    requires AllWellFormed(regions) && ClueShape(hc, vc) && |regions| > 0
    ensures var sols := Solve(regions, AllNone(|regions|), hc, vc);
      && (forall t :: t in sols <==> Consistent(regions, t, hc, vc))
      && NoDup(sols)
  {
    var s0 := AllNone(|regions|);
    var sols := Solve(regions, s0, hc, vc);
    NoneCountFull(s0);
    forall t | t in sols
      ensures Consistent(regions, t, hc, vc)
    {
      SolveSound(regions, s0, hc, vc, t);
    }
    forall t | Consistent(regions, t, hc, vc)
      ensures t in sols
    {
      assert Extends(t, s0);
      SolveComplete(regions, s0, hc, vc, t);
    }
    SolveNoDup(regions, s0, hc, vc);
  }

  /** The puzzle has a unique solution exactly when the search yields at most one vector. */
  lemma UniqueIffAtMostOne(regions: seq<RegionInfo>, hc: seq<Option<int>>, vc: seq<Option<int>>)
    requires AllWellFormed(regions) && ClueShape(hc, vc) && |regions| > 0
    ensures |Solve(regions, AllNone(|regions|), hc, vc)| <= 1 <==>
      forall t, u :: Consistent(regions, t, hc, vc) && Consistent(regions, u, hc, vc) ==> t == u
  {
    var sols := Solve(regions, AllNone(|regions|), hc, vc);
    SolveExact(regions, hc, vc);
    if |sols| > 1 {
      assert sols[0] in sols && sols[1] in sols;
      assert sols[0] != sols[1];
    } else {
      forall t, u | Consistent(regions, t, hc, vc) && Consistent(regions, u, hc, vc)
        ensures t == u
      {
        assert t in sols && u in sols;
      }
    }
  }

  // ---------------------------------------------------------------------------
  // The imperative solver
  // ---------------------------------------------------------------------------

  /** The cell counts toward the bound: every cell of an unassigned region counts toward the maximum only. */
  predicate Counts(upper: bool, info: RegionInfo, lvl: Option<int>, cell: int)
  {
    if lvl.None? then upper else Wet(info, lvl.value, cell)
  }

  /** One bound array after the first k cells of region regIx have been tallied. */
  predicate Tallied(a: seq<int>, regions: seq<RegionInfo>, sofar: seq<Option<int>>, axis: Axis, upper: bool, regIx: nat, k: nat)
    requires regIx < |regions| == |sofar| && k <= |regions[regIx].cells|
  {
    && |a| == 6
    && forall idx :: 0 <= idx < 6 ==>
      a[idx] == (if upper then SumMax(regions, sofar, axis, idx, regIx) + PartMax(regions[regIx], sofar[regIx], axis, idx, k)
                 else SumMin(regions, sofar, axis, idx, regIx) + PartMin(regions[regIx], sofar[regIx], axis, idx, k))
  }

  function LineOf(axis: Axis, cell: int): int
  {
    if axis == Horiz then Row(cell) else Col(cell)
  }

  function Bump(a: seq<int>, axis: Axis, counts: bool, cell: int): seq<int>
    requires |a| == 6 && IsCell(cell)
  {
    if counts then a[LineOf(axis, cell) := a[LineOf(axis, cell)] + 1] else a
  }

  lemma TalliedStep(a: seq<int>, regions: seq<RegionInfo>, sofar: seq<Option<int>>, axis: Axis, upper: bool, regIx: nat, k: nat)
    requires AllWellFormed(regions)
    requires regIx < |regions| == |sofar| && k < |regions[regIx].cells|
    requires Tallied(a, regions, sofar, axis, upper, regIx, k)
    ensures IsCell(regions[regIx].cells[k])
    ensures Tallied(Bump(a, axis, Counts(upper, regions[regIx], sofar[regIx], regions[regIx].cells[k]), regions[regIx].cells[k]),
                    regions, sofar, axis, upper, regIx, k + 1)
  {
    assert WellFormed(regions[regIx]);
  }

  /** One bounds array after the first n regions: each line holds the sum of their bounds on it. */
  predicate Summed(a: seq<int>, regions: seq<RegionInfo>, sofar: seq<Option<int>>, axis: Axis, upper: bool, n: nat)
    requires n <= |regions| == |sofar|
  {
    && |a| == 6
    && forall idx :: 0 <= idx < 6 ==>
      a[idx] == (if upper then SumMax(regions, sofar, axis, idx, n) else SumMin(regions, sofar, axis, idx, n))
  }

  lemma TalliedStart(a: seq<int>, regions: seq<RegionInfo>, sofar: seq<Option<int>>, axis: Axis, upper: bool, regIx: nat)
    requires regIx < |regions| == |sofar|
    requires Summed(a, regions, sofar, axis, upper, regIx)
    ensures Tallied(a, regions, sofar, axis, upper, regIx, 0)
  {
  }

  lemma TalliedNext(a: seq<int>, regions: seq<RegionInfo>, sofar: seq<Option<int>>, axis: Axis, upper: bool, regIx: nat)
    requires regIx < |regions| == |sofar|
    requires Tallied(a, regions, sofar, axis, upper, regIx, |regions[regIx].cells|)
    ensures Summed(a, regions, sofar, axis, upper, regIx + 1)
  {
  }

  /** The body of the inner bounds loop: one cell of one region. */
  method TallyCell(hMin: array<int>, hMax: array<int>, vMin: array<int>, vMax: array<int>,
                   info: RegionInfo, lvl: Option<int>, cell: int)
    requires hMin.Length == hMax.Length == vMin.Length == vMax.Length == 6 && IsCell(cell)
    requires hMin != hMax && hMin != vMin && hMin != vMax && hMax != vMin && hMax != vMax && vMin != vMax
    modifies hMin, hMax, vMin, vMax
    ensures hMin[..] == Bump(old(hMin[..]), Horiz, Counts(false, info, lvl, cell), cell)
    ensures hMax[..] == Bump(old(hMax[..]), Horiz, Counts(true, info, lvl, cell), cell)
    ensures vMin[..] == Bump(old(vMin[..]), Vert, Counts(false, info, lvl, cell), cell)
    ensures vMax[..] == Bump(old(vMax[..]), Vert, Counts(true, info, lvl, cell), cell)
  {
    if lvl.None? {
      hMax[cell / W] := hMax[cell / W] + 1;
      vMax[cell % W] := vMax[cell % W] + 1;
    } else if cell / W > info.bottomRow - lvl.value {
      hMin[cell / W] := hMin[cell / W] + 1;
      hMax[cell / W] := hMax[cell / W] + 1;
      vMin[cell % W] := vMin[cell % W] + 1;
      vMax[cell % W] := vMax[cell % W] + 1;
    }
  }

  /** The nested loops that fill `horizMin`, `horizMax`, `vertMin` and `vertMax`. */
  method ComputeBounds(regions: seq<RegionInfo>, sofar: seq<Option<int>>)
    returns (horizMin: seq<int>, horizMax: seq<int>, vertMin: seq<int>, vertMax: seq<int>)
    requires AllWellFormed(regions) && |sofar| == |regions|
    ensures |horizMin| == |horizMax| == |vertMin| == |vertMax| == 6
    ensures forall idx :: 0 <= idx < 6 ==>
      && horizMin[idx] == SumMin(regions, sofar, Horiz, idx, |regions|)
      && horizMax[idx] == SumMax(regions, sofar, Horiz, idx, |regions|)
      && vertMin[idx] == SumMin(regions, sofar, Vert, idx, |regions|)
      && vertMax[idx] == SumMax(regions, sofar, Vert, idx, |regions|)
  {
    var hMin := new int[H](_ => 0);
    var hMax := new int[H](_ => 0);
    var vMin := new int[W](_ => 0);
    var vMax := new int[W](_ => 0);
    for regIx := 0 to |regions|
      invariant Summed(hMin[..], regions, sofar, Horiz, false, regIx)
      invariant Summed(hMax[..], regions, sofar, Horiz, true, regIx)
      invariant Summed(vMin[..], regions, sofar, Vert, false, regIx)
      invariant Summed(vMax[..], regions, sofar, Vert, true, regIx)
    {
      TallyRegion(hMin, hMax, vMin, vMax, regions, sofar, regIx);
    }
    horizMin, horizMax, vertMin, vertMax := hMin[..], hMax[..], vMin[..], vMax[..];
  }

  /** The inner bounds loop: every cell of one region. */
  method TallyRegion(hMin: array<int>, hMax: array<int>, vMin: array<int>, vMax: array<int>,
                     regions: seq<RegionInfo>, sofar: seq<Option<int>>, regIx: nat)
    requires AllWellFormed(regions) && regIx < |regions| == |sofar|
    requires hMin != hMax && hMin != vMin && hMin != vMax && hMax != vMin && hMax != vMax && vMin != vMax
    requires Summed(hMin[..], regions, sofar, Horiz, false, regIx)
    requires Summed(hMax[..], regions, sofar, Horiz, true, regIx)
    requires Summed(vMin[..], regions, sofar, Vert, false, regIx)
    requires Summed(vMax[..], regions, sofar, Vert, true, regIx)
    modifies hMin, hMax, vMin, vMax
    ensures Summed(hMin[..], regions, sofar, Horiz, false, regIx + 1)
    ensures Summed(hMax[..], regions, sofar, Horiz, true, regIx + 1)
    ensures Summed(vMin[..], regions, sofar, Vert, false, regIx + 1)
    ensures Summed(vMax[..], regions, sofar, Vert, true, regIx + 1)
  {
    var info := regions[regIx];
    var lvl := sofar[regIx];
    TalliedStart(hMin[..], regions, sofar, Horiz, false, regIx);
    TalliedStart(hMax[..], regions, sofar, Horiz, true, regIx);
    TalliedStart(vMin[..], regions, sofar, Vert, false, regIx);
    TalliedStart(vMax[..], regions, sofar, Vert, true, regIx);
    for k := 0 to |info.cells|
      invariant Tallied(hMin[..], regions, sofar, Horiz, false, regIx, k)
      invariant Tallied(hMax[..], regions, sofar, Horiz, true, regIx, k)
      invariant Tallied(vMin[..], regions, sofar, Vert, false, regIx, k)
      invariant Tallied(vMax[..], regions, sofar, Vert, true, regIx, k)
    {
      var cell := info.cells[k];
      ghost var a0, a1, a2, a3 := hMin[..], hMax[..], vMin[..], vMax[..];
      TalliedStep(a0, regions, sofar, Horiz, false, regIx, k);
      TalliedStep(a1, regions, sofar, Horiz, true, regIx, k);
      TalliedStep(a2, regions, sofar, Vert, false, regIx, k);
      TalliedStep(a3, regions, sofar, Vert, true, regIx, k);
      TallyCell(hMin, hMax, vMin, vMax, info, lvl, cell);
    }
    TalliedNext(hMin[..], regions, sofar, Horiz, false, regIx);
    TalliedNext(hMax[..], regions, sofar, Horiz, true, regIx);
    TalliedNext(vMin[..], regions, sofar, Vert, false, regIx);
    TalliedNext(vMax[..], regions, sofar, Vert, true, regIx);
  }

  /** The two pruning loops (`goto busted`). The column loop runs to `_h`, which equals `_w`. */
  method Busted(horizMin: seq<int>, horizMax: seq<int>, vertMin: seq<int>, vertMax: seq<int>,
                hc: seq<Option<int>>, vc: seq<Option<int>>) returns (busted: bool)
    requires |horizMin| == |horizMax| == |vertMin| == |vertMax| == 6 && ClueShape(hc, vc)
    ensures !busted <==> forall idx :: 0 <= idx < 6 ==>
      Within(hc[idx], horizMin[idx], horizMax[idx]) && Within(vc[idx], vertMin[idx], vertMax[idx])
  {
    for row := 0 to H
      invariant forall idx :: 0 <= idx < row ==> Within(hc[idx], horizMin[idx], horizMax[idx])
    {
      if hc[row].Some? && (horizMin[row] > hc[row].value || horizMax[row] < hc[row].value) {
        return true;
      }
    }
    for col := 0 to H
      invariant forall idx :: 0 <= idx < col ==> Within(vc[idx], vertMin[idx], vertMax[idx])
    {
      if vc[col].Some? && (vertMin[col] > vc[col].value || vertMax[col] < vc[col].value) {
        return true;
      }
    }
    return false;
  }

  /** The region-selection loop, with its `goto shortcut` once a one-row region turns up. */
  method SelectRegion(regions: seq<RegionInfo>, sofar: seq<Option<int>>) returns (bestRegIx: int, smallestSize: int)
    requires AllWellFormed(regions) && |sofar| == |regions|
    ensures (bestRegIx, smallestSize) == BestScan(regions, sofar, |regions|)
  {
    bestRegIx := -1;
    smallestSize := H + 1;
    var r := 0;
    while r < |sofar|
      invariant 0 <= r <= |sofar|
      invariant (bestRegIx, smallestSize) == BestScan(regions, sofar, r)
    {
      if sofar[r].None? && regions[r].numRows < smallestSize {
        smallestSize := regions[r].numRows;
        bestRegIx := r;
        if smallestSize == 1 {
          BestScanShortcut(regions, sofar, r + 1, |regions|);
          return;
        }
      }
      r := r + 1;
    }
  }

  method SolveRecurse(regions: seq<RegionInfo>, sofar: array<Option<int>>, hc: seq<Option<int>>, vc: seq<Option<int>>)
    returns (sols: seq<seq<int>>)
    requires Ready(regions, sofar[..], hc, vc)
    modifies sofar
    ensures sols == Solve(regions, old(sofar[..]), hc, vc)
    ensures sofar[..] == old(sofar[..])
    decreases NoneCount(sofar[..]), 1
  {
    ghost var s0 := sofar[..];
    var bestRegIx, smallestSize := SelectRegion(regions, sofar[..]);
    BestScanFacts(regions, s0, |regions|);

    if bestRegIx == -1 {
      sols := [Values(sofar[..])];
      return;
    }

    ghost var total := Levels(regions, s0, hc, vc, bestRegIx, 0);
    SolveUnfold(regions, s0, hc, vc);
    sols := [];
    var level := 0;
    while level <= smallestSize
      invariant 0 <= level <= smallestSize + 1
      invariant sofar[..] == s0
      invariant sols + Levels(regions, s0, hc, vc, bestRegIx, level) == total
      decreases smallestSize + 1 - level
    {
      ghost var tail := Levels(regions, s0, hc, vc, bestRegIx, level + 1);
      var more := TryLevel(regions, sofar, hc, vc, bestRegIx, level);
      assert (sols + more) + tail == sols + (more + tail);
      sols := sols + more;
      level := level + 1;
    }
    assert Levels(regions, s0, hc, vc, bestRegIx, level) == [];
    assert sols + [] == sols;
  }

  /**
   * One pass of the level loop: assign the level, compute the bounds, and
   * recurse unless a clue is out of bounds. The region is unassigned again
   * after every pass, while the source resets it once after the loop; the
   * two agree, since each pass overwrites the entry before anything reads it.
   */
  method TryLevel(regions: seq<RegionInfo>, sofar: array<Option<int>>, hc: seq<Option<int>>, vc: seq<Option<int>>,
                  bestRegIx: int, level: nat) returns (more: seq<seq<int>>)
    requires Ready(regions, sofar[..], hc, vc) && 0 <= bestRegIx < sofar.Length && sofar[bestRegIx].None?
    modifies sofar
    ensures more == LevelResult(regions, old(sofar[..]), hc, vc, bestRegIx, level)
    ensures sofar[..] == old(sofar[..])
    decreases NoneCount(sofar[..]), 0
  {
    ghost var s0 := sofar[..];
    sofar[bestRegIx] := Some(level);
    ghost var s' := s0[bestRegIx := Some(level)];
    assert sofar[..] == s';
    var horizMin, horizMax, vertMin, vertMax := ComputeBounds(regions, sofar[..]);
    var busted := Busted(horizMin, horizMax, vertMin, vertMax, hc, vc);
    assert !busted <==> Fits(regions, s', hc, vc);
    if !busted {
      NoneCountAssign(s0, bestRegIx, level);
      more := SolveRecurse(regions, sofar, hc, vc);
    } else {
      more := [];
    }
    sofar[bestRegIx] := None;
    assert sofar[..] == s0;
  }
}
