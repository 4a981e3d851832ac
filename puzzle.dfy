/**
 * `GenerateAquarium`: partition, random levels, clues, the ambiguity test
 * that sends the generator back to `tryAgain`, and the test that decides
 * whether a subset of the clues still pins the solution down.
 */
module Puzzle {
  import opened Opt
  import opened Grid
  import opened Oracle
  import opened RegionInfos
  import opened Growth
  import opened Partition
  import opened Composer
  import opened Solver

  // ---------------------------------------------------------------------------
  // The clues of the solution board are met by the solution levels
  // ---------------------------------------------------------------------------

  /** The wet cells on the line among the first k cells of a region. */
  ghost function WetSet(info: RegionInfo, level: int, axis: Axis, idx: int, k: nat): set<int>
    requires k <= |info.cells|
  {
    if k == 0 then {}
    else if OnLine(axis, idx, info.cells[k - 1]) && Wet(info, level, info.cells[k - 1])
    then WetSet(info, level, axis, idx, k - 1) + {info.cells[k - 1]}
    else WetSet(info, level, axis, idx, k - 1)
  }

  lemma {:induction false} WetSetMembers(info: RegionInfo, level: int, axis: Axis, idx: int, k: nat)
    requires k <= |info.cells|
    ensures forall c :: c in WetSet(info, level, axis, idx, k) <==>
      c in info.cells[..k] && OnLine(axis, idx, c) && Wet(info, level, c)
  {
    if k > 0 {
      WetSetMembers(info, level, axis, idx, k - 1);
      assert info.cells[..k] == info.cells[..k - 1] + [info.cells[k - 1]];
    }
  }

  /** The k-th cell of an ascending region is none of the earlier ones. */
  lemma WetSetFresh(info: RegionInfo, level: int, axis: Axis, idx: int, k: nat)
    requires WellFormed(info) && 0 < k <= |info.cells|
    ensures info.cells[k - 1] !in WetSet(info, level, axis, idx, k - 1)
  {
    WetSetMembers(info, level, axis, idx, k - 1);
    var c := info.cells[k - 1];
    forall p | 0 <= p < k - 1
      ensures info.cells[p] != c
    {
      assert info.cells[p] < info.cells[k - 1];
    }
    assert c !in info.cells[..k - 1];
  }

  lemma {:induction false} WetSetCount(info: RegionInfo, level: int, axis: Axis, idx: int, k: nat)
    requires WellFormed(info) && k <= |info.cells|
    ensures |WetSet(info, level, axis, idx, k)| == WetCount(info, level, axis, idx, k)
  {
    if k > 0 {
      WetSetCount(info, level, axis, idx, k - 1);
      WetSetFresh(info, level, axis, idx, k);
    }
  }

  /** The wet cells of a line that belong to one of the first n regions. */
  ghost function UnionWet(regions: seq<RegionInfo>, levels: seq<int>, axis: Axis, idx: int, n: nat): set<int>
    requires n <= |regions| == |levels|
  {
    if n == 0 then {}
    else UnionWet(regions, levels, axis, idx, n - 1) + WetSet(regions[n - 1], levels[n - 1], axis, idx, |regions[n - 1].cells|)
  }

  lemma {:induction false} UnionWetMembers(regions: seq<RegionInfo>, levels: seq<int>, axis: Axis, idx: int, n: nat)
    requires n <= |regions| == |levels|
    ensures forall c :: c in UnionWet(regions, levels, axis, idx, n) <==>
      exists r :: 0 <= r < n && c in regions[r].cells && OnLine(axis, idx, c) && Wet(regions[r], levels[r], c)
  {
    if n > 0 {
      UnionWetMembers(regions, levels, axis, idx, n - 1);
      var info := regions[n - 1];
      WetSetMembers(info, levels[n - 1], axis, idx, |info.cells|);
      assert info.cells[..|info.cells|] == info.cells;
    }
  }

  lemma {:induction false} UnionWetCount(regions: seq<RegionInfo>, levels: seq<int>, axis: Axis, idx: int, n: nat)
    requires n <= |regions| == |levels| && AllWellFormed(regions) && Disjoint(regions)
    ensures |UnionWet(regions, levels, axis, idx, n)| == LineWater(regions, levels, axis, idx, n)
  {
    if n > 0 {
      UnionWetCount(regions, levels, axis, idx, n - 1);
      UnionWetStep(regions, levels, axis, idx, n);
    }
  }

  lemma UnionWetStep(regions: seq<RegionInfo>, levels: seq<int>, axis: Axis, idx: int, n: nat)
    requires 0 < n <= |regions| == |levels| && AllWellFormed(regions) && Disjoint(regions)
    requires |UnionWet(regions, levels, axis, idx, n - 1)| == LineWater(regions, levels, axis, idx, n - 1)
    ensures |UnionWet(regions, levels, axis, idx, n)| == LineWater(regions, levels, axis, idx, n)
  {
    var info := regions[n - 1];
    assert WellFormed(info);
    WetSetCount(info, levels[n - 1], axis, idx, |info.cells|);
    UnionWetApart(regions, levels, axis, idx, n);
    CardUnion(UnionWet(regions, levels, axis, idx, n - 1), WetSet(info, levels[n - 1], axis, idx, |info.cells|));
  }

  lemma CardUnion(a: set<int>, b: set<int>)
    requires a !! b
    ensures |a + b| == |a| + |b|
  {
  }

  /** The wet cells of the n-th region are none of the earlier regions' wet cells. */
  lemma UnionWetApart(regions: seq<RegionInfo>, levels: seq<int>, axis: Axis, idx: int, n: nat)
    requires 0 < n <= |regions| == |levels| && Disjoint(regions)
    ensures UnionWet(regions, levels, axis, idx, n - 1) !! WetSet(regions[n - 1], levels[n - 1], axis, idx, |regions[n - 1].cells|)
  {
    var info := regions[n - 1];
    var prev := UnionWet(regions, levels, axis, idx, n - 1);
    var last := WetSet(info, levels[n - 1], axis, idx, |info.cells|);
    UnionWetMembers(regions, levels, axis, idx, n - 1);
    WetSetMembers(info, levels[n - 1], axis, idx, |info.cells|);
    assert info.cells[..|info.cells|] == info.cells;
    forall c | c in prev
      ensures c !in last
    {
      var r :| 0 <= r < n - 1 && c in regions[r].cells && OnLine(axis, idx, c) && Wet(regions[r], levels[r], c);
      assert c !in regions[n - 1].cells;
    }
  }

  /** On a partition, the water a level vector puts on a line is the line count of its board. */
  lemma LineWaterIsLineCount(regions: seq<RegionInfo>, levels: seq<int>, axis: Axis, idx: int)
    requires |regions| == |levels| && AllWellFormed(regions) && Disjoint(regions) && 0 <= idx < 6
    ensures LineWater(regions, levels, axis, idx, |regions|) == LineCount(SolutionBoard(regions, levels), axis, idx, 6)
  {
    UnionWetCount(regions, levels, axis, idx, |regions|);
    WetIsWater(regions, levels, axis, idx);
    LineCountIsWater(SolutionBoard(regions, levels), axis, idx);
  }

  /** The wet cells of all regions on a line are the water cells of the board on it. */
  lemma WetIsWater(regions: seq<RegionInfo>, levels: seq<int>, axis: Axis, idx: int)
    requires |regions| == |levels| && AllWellFormed(regions) && Disjoint(regions) && 0 <= idx < 6
    ensures UnionWet(regions, levels, axis, idx, |regions|) == WaterOnLine(SolutionBoard(regions, levels), axis, idx)
  {
    var board := SolutionBoard(regions, levels);
    var wet := UnionWet(regions, levels, axis, idx, |regions|);
    UnionWetMembers(regions, levels, axis, idx, |regions|);
    forall c | c in wet
      ensures c in WaterOnLine(board, axis, idx)
    {
      WetOnBoard(regions, levels, axis, idx, c);
    }
    forall c | c in WaterOnLine(board, axis, idx)
      ensures c in wet
    {
      assert WaterAt(regions, levels, c);
    }
  }

  /** A wet cell of some region on the line is water on the line of the solution board. */
  lemma WetOnBoard(regions: seq<RegionInfo>, levels: seq<int>, axis: Axis, idx: int, c: int)
    requires |regions| == |levels| && AllWellFormed(regions) && Disjoint(regions) && 0 <= idx < 6
    requires exists r :: 0 <= r < |regions| && c in regions[r].cells && OnLine(axis, idx, c) && Wet(regions[r], levels[r], c)
    ensures c in WaterOnLine(SolutionBoard(regions, levels), axis, idx)
  {
    var board := SolutionBoard(regions, levels);
    var r :| 0 <= r < |regions| && c in regions[r].cells && OnLine(axis, idx, c) && Wet(regions[r], levels[r], c);
    assert WellFormed(regions[r]);
    var p :| 0 <= p < |regions[r].cells| && regions[r].cells[p] == c;
    assert IsCell(regions[r].cells[p]);
    assert board[c];
  }

  /** The solution levels meet the clues read off their own board. */
  lemma OwnCluesConsistent(regions: seq<RegionInfo>, levels: seq<int>)
    requires AllWellFormed(regions) && Disjoint(regions) && LevelsInRange(regions, levels)
    ensures var board := SolutionBoard(regions, levels);
      Consistent(regions, levels, Clues(board, Horiz), Clues(board, Vert))
  {
    forall idx | 0 <= idx < 6
      ensures LineWater(regions, levels, Horiz, idx, |regions|) == LineCount(SolutionBoard(regions, levels), Horiz, idx, 6)
      ensures LineWater(regions, levels, Vert, idx, |regions|) == LineCount(SolutionBoard(regions, levels), Vert, idx, 6)
    {
      LineWaterIsLineCount(regions, levels, Horiz, idx);
      LineWaterIsLineCount(regions, levels, Vert, idx);
    }
  }

  /** The grown regions, as RegionInfos, are pairwise disjoint and cover the grid. */
  lemma TiledRegions(orders: seq<seq<int>>)
    requires Tiles(NoneCovered, orders)
    ensures NonEmptyCells(orders)
    ensures Disjoint(RegionsOf(orders)) && Covering(RegionsOf(orders))
  {
    TiledDisjoint(orders);
    TiledCovering(orders);
  }

  /** The cells of the RegionInfo built from a grown region are that region's cells. */
  lemma RegionOfCells(order: seq<int>)
    requires |order| > 0 && AllCells(order)
    ensures forall c :: c in RegionOf(order).cells <==> c in order
  {
    var info := RegionOf(order);
    forall c | c in info.cells
      ensures c in order
    {
      var p :| 0 <= p < |info.cells| && info.cells[p] == c;
      assert IsCell(info.cells[p]);
    }
    forall c | c in order
      ensures c in info.cells
    {
      var p :| 0 <= p < |order| && order[p] == c;
      assert IsCell(order[p]);
    }
  }

  lemma RegionsOfCells(orders: seq<seq<int>>, k: int)
    requires NonEmptyCells(orders) && 0 <= k < |orders|
    ensures forall c :: c in RegionsOf(orders)[k].cells <==> c in orders[k]
  {
    RegionOfCells(orders[k]);
  }

  lemma TiledDisjoint(orders: seq<seq<int>>)
    requires Tiles(NoneCovered, orders)
    ensures NonEmptyCells(orders) && Disjoint(RegionsOf(orders))
  {
    var rs := RegionsOf(orders);
    forall r1, r2, c | 0 <= r1 < |rs| && 0 <= r2 < |rs| && r1 != r2 && c in rs[r1].cells
      ensures c !in rs[r2].cells
    {
      RegionsOfCells(orders, r1);
      RegionsOfCells(orders, r2);
      if r1 < r2 {
        assert Apart(orders[r1], orders[r2]);
      } else {
        assert Apart(orders[r2], orders[r1]);
      }
    }
  }

  lemma TiledCovering(orders: seq<seq<int>>)
    requires Tiles(NoneCovered, orders)
    ensures NonEmptyCells(orders) && Covering(RegionsOf(orders))
  {
    var rs := RegionsOf(orders);
    forall c | IsCell(c)
      ensures InSomeRegion(rs, c)
    {
      assert !NoneCovered[c];
      var k :| 0 <= k < |orders| && c in orders[k];
      RegionsOfCells(orders, k);
      assert c in rs[k].cells;
    }
  }

  // ---------------------------------------------------------------------------
  // One pass from `tryAgain`, and the retry loop
  // ---------------------------------------------------------------------------

  datatype Generated = Generated(
    regions: seq<RegionInfo>, levels: seq<int>, solution: seq<bool>,
    horizClues: seq<Option<int>>, vertClues: seq<Option<int>>)

  /** What one pass produces: a partition of the grid, levels in range, their board and its clues. */
  ghost predicate WellGenerated(g: Generated)
  {
    && AllWellFormed(g.regions) && |g.regions| > 0 && Disjoint(g.regions) && Covering(g.regions)
    && LevelsInRange(g.regions, g.levels)
    && g.solution == SolutionBoard(g.regions, g.levels)
    && g.horizClues == Clues(g.solution, Horiz)
    && g.vertClues == Clues(g.solution, Vert)
  }

  /** One pass of `GenerateAquarium` up to the ambiguity test. */
  function Attempt(draws: seq<nat>): (r: Option<(Generated, seq<nat>)>)
    ensures r.Some? ==> |r.value.1| < |draws|
    ensures r.Some? ==> AllWellFormed(r.value.0.regions) && ClueShape(r.value.0.horizClues, r.value.0.vertClues)
  {
    NoneCoveredCount();
    if PartitionLoop(NoneCovered, draws).None? then None
    else
      Compose(RegionsOf(PartitionLoop(NoneCovered, draws).value.0), PartitionLoop(NoneCovered, draws).value.1)
  }

  /** The random levels, the board and the clues for a fixed list of regions. */
  function Compose(regions: seq<RegionInfo>, draws: seq<nat>): (r: Option<(Generated, seq<nat>)>)
    requires AllWellFormed(regions)
    ensures r.Some? ==> |r.value.1| <= |draws| && r.value.0.regions == regions
    ensures r.Some? ==> LevelsInRange(regions, r.value.0.levels)
    ensures r.Some? ==> r.value.0.solution == SolutionBoard(regions, r.value.0.levels)
    ensures r.Some? ==> r.value.0.horizClues == Clues(r.value.0.solution, Horiz)
    ensures r.Some? ==> r.value.0.vertClues == Clues(r.value.0.solution, Vert)
  {
    match DrawLevels(regions, draws)
    case None => None
    case Some((levels, d2)) =>
      var board := SolutionBoard(regions, levels);
      Some((Generated(regions, levels, board, Clues(board, Horiz), Clues(board, Vert)), d2))
  }

  /** `solveRecurse(...).Skip(1).Any()` on the full clue set. */
  predicate Ambiguous(g: Generated)
    requires AllWellFormed(g.regions) && ClueShape(g.horizClues, g.vertClues)
  {
    |Solve(g.regions, AllNone(|g.regions|), g.horizClues, g.vertClues)| > 1
  }

  /** The `goto tryAgain` loop: passes are repeated until one is unambiguous. */
  function GenerateLoop(draws: seq<nat>): (r: Option<(Generated, seq<nat>)>)
    ensures r.Some? ==> AllWellFormed(r.value.0.regions) && ClueShape(r.value.0.horizClues, r.value.0.vertClues)
    ensures r.Some? ==> !Ambiguous(r.value.0)
    decreases |draws|
  {
    match Attempt(draws)
    case None => None
    case Some((g, d)) => if Ambiguous(g) then GenerateLoop(d) else Some((g, d))
  }

  /** What one pass produces is a partition of the grid with levels, board and clues that belong together. */
  lemma AttemptShape(draws: seq<nat>)
    requires Attempt(draws).Some?
    ensures WellGenerated(Attempt(draws).value.0)
  {
    PartitionShape(draws);
    TiledRegions(PartitionLoop(NoneCovered, draws).value.0);
  }

  /** The draws the successful pass of the retry loop starts from. */
  ghost function FinalPass(draws: seq<nat>): seq<nat>
    requires GenerateLoop(draws).Some?
    decreases |draws|
  {
    var (g, d) := Attempt(draws).value;
    if Ambiguous(g) then FinalPass(d) else draws
  }

  lemma {:induction false} FinalPassIsAttempt(draws: seq<nat>)
    requires GenerateLoop(draws).Some?
    ensures Attempt(FinalPass(draws)) == GenerateLoop(draws)
    decreases |draws|
  {
    var (g, d) := Attempt(draws).value;
    if Ambiguous(g) {
      FinalPassIsAttempt(d);
    }
  }

  lemma GenerateLoopShape(draws: seq<nat>)
    requires GenerateLoop(draws).Some?
    ensures WellGenerated(GenerateLoop(draws).value.0)
  {
    FinalPassIsAttempt(draws);
    AttemptShape(FinalPass(draws));
  }

  /**
   * A pass that is not ambiguous has exactly one solution, the levels it was
   * built from; the search yields just that level vector.
   */
  lemma UnambiguousIsUnique(g: Generated)
    requires WellGenerated(g) && !Ambiguous(g)
    ensures Solve(g.regions, AllNone(|g.regions|), g.horizClues, g.vertClues) == [g.levels]
    ensures forall t :: Consistent(g.regions, t, g.horizClues, g.vertClues) <==> t == g.levels
  {
    var sols := Solve(g.regions, AllNone(|g.regions|), g.horizClues, g.vertClues);
    OwnCluesConsistent(g.regions, g.levels);
    SolveExact(g.regions, g.horizClues, g.vertClues);
    assert g.levels in sols;
    assert |sols| == 1;
    assert sols == [sols[0]];
  }

  /** Whatever `GenerateAquarium` returns is a puzzle whose only solution is its own levels. */
  lemma GeneratedIsUnique(draws: seq<nat>)
    requires GenerateLoop(draws).Some?
    ensures var g := GenerateLoop(draws).value.0;
      && WellGenerated(g)
      && Solve(g.regions, AllNone(|g.regions|), g.horizClues, g.vertClues) == [g.levels]
      && forall t :: Consistent(g.regions, t, g.horizClues, g.vertClues) <==> t == g.levels
  {
    GenerateLoopShape(draws);
    UnambiguousIsUnique(GenerateLoop(draws).value.0);
  }

  /** `GenerateAquarium` with its `goto tryAgain`. */
  method GenerateAquarium(draws: seq<nat>) returns (g: Generated, rest: seq<nat>)
    requires GenerateLoop(draws).Some?
    ensures GenerateLoop(draws) == Some((g, rest))
  {
    var d := draws;
    while true
      invariant GenerateLoop(d) == GenerateLoop(draws)
      decreases |d|
    {
      var unique;
      g, rest, unique := OnePass(d);
      if unique {
        return;
      }
      d := rest;
    }
  }

  /** One pass from `tryAgain` to the ambiguity test (`solveRecurse(...).Skip(1).Any()`). */
  method OnePass(draws: seq<nat>) returns (g: Generated, rest: seq<nat>, unique: bool)
    requires Attempt(draws).Some?
    ensures Attempt(draws) == Some((g, rest))
    ensures unique == !Ambiguous(g)
  {
    var regions, d1, orders := GenerateRegions(draws);
    var (levels, d2) := DrawLevels(regions, d1).value;
    var solution := MakeSolutionBoard(regions, levels);
    var horizClues := Clues(solution, Horiz);
    var vertClues := Clues(solution, Vert);
    var sofar := new Option<int>[|regions|](_ => None);
    assert sofar[..] == AllNone(|regions|);
    var sols := SolveRecurse(regions, sofar, horizClues, vertClues);
    g := Generated(regions, levels, solution, horizClues, vertClues);
    rest := d2;
    unique := |sols| <= 1;
  }
}
