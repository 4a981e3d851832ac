# Aquarium puzzle engine, modelled in Dafny

This project models the puzzle engine of the "Aquarium" module, a 6×6 logic
puzzle played on a bomb. The grid is cut into contiguous regions ("tanks").
Each tank is filled with water up to some level. The puzzle shows how many
water cells each row and each column holds, and the player reconstructs the
water from those clues. The engine lives in `Assets/AquariumModule.cs`. The
model covers these parts of it:

- **Grid and neighbours** (`grid.dfy`): cells `col + 6 * row` and the
  orthogonal neighbour generator `Orthogonal`.
- **Region growth** (`growth.dfy`): `GenerateContiguousRegion`, with its
  frontier `adjs` collected by scanning the region in index order.
- **Partition loop** (`partition.dfy`): grows regions against the cells
  covered so far until all 36 are covered.
- **Region summaries** (`regioninfo.dfy`): `RegionInfo`, holding a region's
  cells and its top row, bottom row and number of rows.
- **Solution board and clues** (`composer.dfy`): the random water levels,
  `MakeSolutionBoard`, and the row and column clues counted off the board.
  A clue is null when its count is 0 or 6.
- **Backtracking solver** (`solver.dfy`): `solveRecurse`. It has region
  selection with its shortcut, the per-line [min, max] water bounds, pruning,
  the level loop, the shared `sofar` array and its restoration. It is
  modelled as a pure specification (`Solve`) and an imperative method over
  an `array<Option<int>>` that is proved equal to it.
- **Generation** (`puzzle.dfy`): one pass of `GenerateAquarium` up to the
  ambiguity test, and the `goto tryAgain` loop.
- **Minimal clue set** (`clues.dfy`): the clue list `allClues`, the `test`
  callback handed to the clue-set reduction, and the clue texts shown.
- **Outline tracer** (`tracer.dfy`): `tracePolygon`, `get`, `getDir` and the
  outline-collection loop of `GenerateSvgPath`.
- **Interaction shell** (`shell.dfy`):
  - square presses, the solved check and the reset button, as a class with
    the source's mutable fields;
  - the press lists the remote commands compute;
  - `coord`.

The random source `Rnd.Range(0, n)` is an explicit stream of draws
(`oracle.dfy`). Every draw is consumed in the order the source makes it:
- the region size,
- the seed cell,
- one pick per growth step,
- then one level per region.

A specification function returns `None` when the stream runs out or holds a
value outside [0, n). The methods require in-range draws and enough of
them. The retry loop also requires a stream on which it finishes, which the
random source does not guarantee.

Main results:
- Growth yields a connected region of allowed cells. It has between 1 and
  max(1, maxSize) cells and stops early only when walled in.
- The partition loop tiles the grid.
- A tank fills from the bottom.
- The solver yields exactly the level vectors that meet the clues, each
  once, in the source's order, and leaves `sofar` as it found it.
- A generated puzzle therefore has exactly one solution, its own levels.
- A clue subset passes the `test` callback iff it still pins the solution
  down.
- The tracer always terminates. This is proved by a pigeonhole argument on
  the boundary edges, with no fuel. Every outline is a closed rectilinear
  polygon whose corners fall in the eight cases of the SVG corner
  classifier. Every left edge is marked by exactly one outline. The
  diagonal pair {0, 7} gives two separate squares.
- When each square is named once, the remote commands leave the squares
  exactly where they ask, unless the module solves along the way. A repeated
  name repeats that square's batch of presses, so `water A1 A1` on an unfilled
  A1 leaves it air.

## Model

| member | source | states |
|---|---|---|
| Grid.Orthogonal | Assets/AquariumModule.cs:100-109 | the neighbours yielded are exactly the in-grid cells one step up, down, left or right (an independent adjacency predicate), at most 4 of them |
| Grid.AdjacentCases | Assets/AquariumModule.cs:102-108 | 4-adjacency case by case: left if not in column 0, up if not in row 0, down if not in the last row, right if not in the last column |
| Oracle.Range | Assets/AquariumModule.cs:115 | a draw succeeds iff the stream is non-empty and its head is below n; the draw and the rest of the stream make up the stream |
| Growth.Mark | Assets/AquariumModule.cs:113-115 | the mask built from a list of cells is set exactly on those cells |
| Growth.Allowed | Assets/AquariumModule.cs:114 | `allowed` holds exactly the cells not forbidden |
| Growth.AllowedBelow | Assets/AquariumModule.cs:114 | the allowed cells below n are exactly the non-forbidden cells below n |
| Growth.InsertAllMembers | Assets/AquariumModule.cs:123-125 | after offering candidates, the set holds the old members plus exactly the candidates outside the region and not forbidden |
| Growth.FrontierUpToMembers | Assets/AquariumModule.cs:120-125 | after scanning cells 0..i-1, the set holds exactly the allowed non-region cells adjacent to a region cell below i |
| Growth.FrontierUpToStep | Assets/AquariumModule.cs:121-125 | scanning one more cell keeps the scan invariant |
| Growth.FrontierSkip | Assets/AquariumModule.cs:122 | a cell outside the region leaves the invariant for one more cell |
| Growth.FrontierStep | Assets/AquariumModule.cs:122-125 | a region cell's neighbours extend the invariant by that cell |
| Growth.FrontierStepComplete | Assets/AquariumModule.cs:123-125 | after a region cell, every allowed neighbour of a scanned region cell is in the set |
| Growth.FrontierStepSound | Assets/AquariumModule.cs:123-125 | every member of the set after a region cell is allowed, outside the region and adjacent to a scanned region cell |
| Growth.Frontier | Assets/AquariumModule.cs:120-125 | the frontier holds exactly the allowed cells outside the region that touch it orthogonally |
| Growth.ComputeFrontier | Assets/AquariumModule.cs:120-125 | the frontier loop over the region array computes that frontier, in HashSet insertion order |
| Growth.OfferNeighbours | Assets/AquariumModule.cs:123-125 | the inner loop offers each neighbour of the cell in turn |
| Growth.InsertAllSnoc | Assets/AquariumModule.cs:123-125 | offering one more neighbour is one more `Add` |
| Growth.GrowLoop | Assets/AquariumModule.cs:118-132 | the growth loop only adds cells, consumes draws and keeps cells on the grid |
| Growth.Grow | Assets/AquariumModule.cs:111-133 | growth consumes at least the seed draw and yields a non-empty region of grid cells |
| Growth.EmptyFrontierEnclosed | Assets/AquariumModule.cs:126-127 | an empty frontier means no allowed cell outside the region touches it |
| Growth.GrownExtend | Assets/AquariumModule.cs:128-130 | adding a frontier cell keeps the region connected and made of allowed cells |
| Growth.AttachedSnoc | Assets/AquariumModule.cs:129 | a new cell next to a region cell keeps every cell attached to an earlier one |
| Growth.GrowLoopShape | Assets/AquariumModule.cs:118-132 | the loop keeps the region connected and allowed, extends it, never passes max(1, maxSize), and stops short of maxSize only when enclosed |
| Growth.GrowShape | Assets/AquariumModule.cs:111-133 | the region never contains a forbidden cell, each cell after the seed touches an earlier one, it has 1 to max(1, maxSize) cells, and it is below maxSize only when no allowed neighbour remains |
| Growth.GrowNeedsAllowedCell | Assets/AquariumModule.cs:114-115 | growth succeeds only if some cell is allowed, since the seed is drawn from `allowed` |
| Growth.GrowStep | Assets/AquariumModule.cs:126-131 | one pass of the loop: return on an empty frontier, otherwise add the cell the draw picks |
| Growth.MarkSnoc | Assets/AquariumModule.cs:129 | setting `region[a]` gives the mask of the region with a added |
| Growth.GenerateContiguousRegion | Assets/AquariumModule.cs:111-133 | the method, growing a region array in place, returns the mask of the region `Grow` specifies and the draws left |
| Partition.CountTrue | Assets/AquariumModule.cs:174 | the number of set entries never exceeds the length |
| Partition.CountTrueSet | Assets/AquariumModule.cs:182-183 | setting a clear entry adds one to the count, as `numCovered++` does |
| Partition.CountTrueAll | Assets/AquariumModule.cs:175 | a count of 36 means every cell is covered, so the loop exit means full coverage |
| Partition.Uncovered | Assets/AquariumModule.cs:173 | `new bool[36]` has no cell set |
| Partition.Cover | Assets/AquariumModule.cs:179-184 | marking a region's cells keeps a 36-cell mask |
| Partition.PartitionLoop | Assets/AquariumModule.cs:172-185 | while cells remain uncovered each round consumes draws (termination); every region is non-empty |
| Partition.TilesStep | Assets/AquariumModule.cs:177-184 | a grown region followed by regions that tile the rest tiles the whole |
| Partition.TilesCovers | Assets/AquariumModule.cs:175-184 | every uncovered cell lands in the new region or a later one |
| Partition.TilesFresh | Assets/AquariumModule.cs:177 | no region uses a cell covered before |
| Partition.TilesApart | Assets/AquariumModule.cs:172-185 | pairwise disjointness extends to the new region in front |
| Partition.FirstApart | Assets/AquariumModule.cs:177-184 | the new region shares no cell with any later one |
| Partition.PartitionLoopShape | Assets/AquariumModule.cs:172-185 | the regions are pairwise disjoint, avoid what was covered, and cover everything else |
| Partition.CountTrueNone | Assets/AquariumModule.cs:173-174 | an all-clear mask counts 0 |
| Partition.NoneCoveredCount | Assets/AquariumModule.cs:173-174 | `numCovered` starts in step with `covered` |
| Partition.PartitionShape | Assets/AquariumModule.cs:172-185 | from an empty board the regions tile all 36 cells, and there is at least one |
| Partition.PartitionRound | Assets/AquariumModule.cs:175-184 | one round: a size drawn below 12, growth against `covered`, then the rest of the loop |
| Partition.CoverRegion | Assets/AquariumModule.cs:179-184 | the inner loop sets the region's cells in `covered` and keeps `numCovered` equal to the count, which strictly grows |
| Partition.RegionOf | Assets/AquariumModule.cs:178 | the RegionInfo of a grown region is well formed and keeps its mask |
| Partition.RegionsOf | Assets/AquariumModule.cs:172-178 | the region list has one well-formed RegionInfo per grown region, in order |
| Partition.RegionsOfSnoc | Assets/AquariumModule.cs:178 | `regions.Add` appends the new RegionInfo |
| Partition.PartitionAdvance | Assets/AquariumModule.cs:175-185 | one round of the method moves one region from the part of `PartitionLoop` still to run to the list built |
| Partition.GenerateRegions | Assets/AquariumModule.cs:172-185 | the imperative loop over `covered` and `numCovered` yields the specified regions and draws left |
| Partition.PlaceRegion | Assets/AquariumModule.cs:177-184 | one round: the region grown with the drawn size, its RegionInfo, `covered` with its cells set, and the grown count |
| RegionInfos.TrueIndices | Assets/AquariumModule.cs:146 | `Cells` holds exactly the set cells of the mask, ascending |
| RegionInfos.SomeTrueIndex | Assets/AquariumModule.cs:146-147 | a non-empty mask gives a non-empty `Cells`, so `Cells[0]` exists |
| RegionInfos.MakeRegionInfo | Assets/AquariumModule.cs:143-150 | every cell's row lies in [TopRow, BottomRow], and NumRows = BottomRow - TopRow + 1 lies in [1, 6] |
| RegionInfos.RowsBetween | Assets/AquariumModule.cs:147-148 | ascending cells lie between the rows of the first and the last |
| Composer.SolutionBoard | Assets/AquariumModule.cs:157-165 | the solution board is a 36-cell mask |
| Composer.DrawLevels | Assets/AquariumModule.cs:188 | each region's level is drawn from [0, NumRows] (upper bound exclusive in `Rnd.Range`) |
| Composer.MakeSolutionBoard | Assets/AquariumModule.cs:157-165 | the nested loops set exactly the cells that are wet in some region |
| Composer.BoardOfPartition | Assets/AquariumModule.cs:160-163 | with disjoint regions, a region cell is water iff its row is below that region's water line |
| Composer.WaterSettles | Assets/AquariumModule.cs:162 | level 0 leaves a tank empty, level NumRows fills it, and any cell at or below a wet cell of the tank is wet |
| Composer.LineCount | Assets/AquariumModule.cs:192-193 | a count over n positions is at most n |
| Composer.Clues | Assets/AquariumModule.cs:192-193 | a clue is null iff its line holds 0 or 6 water cells, otherwise it is that count |
| Composer.LinePrefixCount | Assets/AquariumModule.cs:192-193 | the count over the first n positions is the number of distinct water cells among them |
| Composer.LinePrefixAhead | Assets/AquariumModule.cs:192-193 | the water among the first n positions holds no later position |
| Composer.LinePrefixWater | Assets/AquariumModule.cs:192-193 | what the count counts are water cells of the line |
| Composer.CellAtOnLine | Assets/AquariumModule.cs:192-193 | the k-th position of a row (`col + 6 * row`) or column is a cell of that line |
| Composer.LinePrefixHas | Assets/AquariumModule.cs:192-193 | every water cell among the first n positions is counted |
| Composer.LineCountIsWater | Assets/AquariumModule.cs:192-193 | a clue's count is the number of water cells of the board on that row or column |
| Puzzle.WetSetMembers | Assets/AquariumModule.cs:161-162 | the wet cells on a line among a region's first k cells, exactly |
| Puzzle.WetSetFresh | Assets/AquariumModule.cs:146 | a region's cells are distinct, ascending as `OrderBy` leaves them |
| Puzzle.WetSetCount | Assets/AquariumModule.cs:286-299 | the solver's per-region count is the number of wet cells on the line |
| Puzzle.UnionWetMembers | Assets/AquariumModule.cs:160-163 | the wet cells of the first n regions on a line, exactly |
| Puzzle.UnionWetCount | Assets/AquariumModule.cs:284-301 | on disjoint regions, the summed water of a line is the number of its wet cells |
| Puzzle.UnionWetStep | Assets/AquariumModule.cs:284-301 | one more region adds its own wet cells to the sum |
| Puzzle.UnionWetApart | Assets/AquariumModule.cs:160-163 | a region's wet cells are none of the earlier regions' |
| Puzzle.LineWaterIsLineCount | Assets/AquariumModule.cs:188-193 | the water the solver sums on a line equals the clue count read off the board |
| Puzzle.WetIsWater | Assets/AquariumModule.cs:157-165 | the wet cells of all regions on a line are the board's water cells there |
| Puzzle.WetOnBoard | Assets/AquariumModule.cs:160-163 | a wet region cell is water on the board |
| Puzzle.OwnCluesConsistent | Assets/AquariumModule.cs:188-196 | the generator's own levels meet every clue derived from their board |
| Puzzle.TiledRegions | Assets/AquariumModule.cs:172-185 | the RegionInfos of the partition are pairwise disjoint and cover every cell |
| Puzzle.RegionOfCells | Assets/AquariumModule.cs:146 | a RegionInfo's cells are its grown region's cells |
| Puzzle.RegionsOfCells | Assets/AquariumModule.cs:178 | the same, for the k-th region of the list |
| Puzzle.TiledDisjoint | Assets/AquariumModule.cs:172-185 | no cell belongs to two RegionInfos of the partition |
| Puzzle.TiledCovering | Assets/AquariumModule.cs:172-185 | every cell belongs to a RegionInfo of the partition |
| Puzzle.Attempt | Assets/AquariumModule.cs:169-193 | a pass consumes draws; its regions are well formed and it has 6 row and 6 column clues |
| Puzzle.Compose | Assets/AquariumModule.cs:188-193 | the levels are in range, the board is theirs, and the clues are that board's |
| Puzzle.GenerateLoop | Assets/AquariumModule.cs:169-197 | the retry loop returns only a pass that is not ambiguous |
| Puzzle.AttemptShape | Assets/AquariumModule.cs:172-193 | a pass yields a partition, levels in range, their board and its clues |
| Puzzle.FinalPassIsAttempt | Assets/AquariumModule.cs:169-197 | the loop's result is the successful pass |
| Puzzle.GenerateLoopShape | Assets/AquariumModule.cs:169-197 | the generated puzzle is well formed |
| Puzzle.UnambiguousIsUnique | Assets/AquariumModule.cs:196 | a puzzle that is not ambiguous is solved by its own levels and no other vector, and the search yields just those levels |
| Puzzle.GeneratedIsUnique | Assets/AquariumModule.cs:167-197 | whatever `GenerateAquarium` returns has exactly one solution, the generator's own levels |
| Puzzle.GenerateAquarium | Assets/AquariumModule.cs:167-197 | the method with `goto tryAgain` returns the specified puzzle |
| Puzzle.OnePass | Assets/AquariumModule.cs:171-196 | one pass returns the specified puzzle and the outcome of `solveRecurse(...).Skip(1).Any()` |
| Solver.WetCount | Assets/AquariumModule.cs:293-297 | a region's exact water on a line is at most its cells on that line |
| Solver.NoneCountAssign | Assets/AquariumModule.cs:279 | assigning an unassigned region leaves one fewer, so the recursion terminates |
| Solver.NoneCountFull | Assets/AquariumModule.cs:270 | no unassigned region is left iff every entry is assigned |
| Solver.NumRowsBounds | Assets/AquariumModule.cs:149 | NumRows lies in [1, 6] |
| Solver.BestScanFacts | Assets/AquariumModule.cs:256-269 | the selection loop keeps the first unassigned region of fewest rows, or -1 with 7 |
| Solver.ScanTakes | Assets/AquariumModule.cs:262-265 | an unassigned region with fewer rows becomes the best |
| Solver.ScanKeeps | Assets/AquariumModule.cs:258-268 | any other region leaves the best |
| Solver.BestIsFirstMinimal | Assets/AquariumModule.cs:256-270 | -1 iff all are assigned; otherwise the lowest-index unassigned region with minimal NumRows |
| Solver.BestScanShortcut | Assets/AquariumModule.cs:266-267 | once a one-row region is found the rest of the scan changes nothing, so `goto shortcut` is sound |
| Solver.Values | Assets/AquariumModule.cs:272 | `sofar.Select(i => i.Value)` agrees with every entry |
| Solver.SolveUnfold | Assets/AquariumModule.cs:270-277 | with an unassigned region left, the search is the level loop on the best region |
| Solver.AllNone | Assets/AquariumModule.cs:196 | `new int?[regions.Count]` has every entry null |
| Solver.SumBounds | Assets/AquariumModule.cs:284-301 | for every completion of `sofar`, each line's water lies in [min, max] |
| Solver.SumExact | Assets/AquariumModule.cs:284-301 | with every region assigned, min and max equal the exact water |
| Solver.MinAtMostMax | Assets/AquariumModule.cs:284-301 | horizMin <= horizMax per row and vertMin <= vertMax per column |
| Solver.FitsFull | Assets/AquariumModule.cs:302-307 | a full assignment that is not pruned meets every clue |
| Solver.ConsistentFits | Assets/AquariumModule.cs:302-307 | a solution extending `sofar` is never pruned at `sofar` |
| Solver.SolveSound | Assets/AquariumModule.cs:254-315 | every yielded vector has levels in range, meets every non-null clue and keeps the fixed entries |
| Solver.LevelsSound | Assets/AquariumModule.cs:277-313 | the same for the vectors of the level loop |
| Solver.LevelResultSound | Assets/AquariumModule.cs:279-311 | the same for one pass of the level loop |
| Solver.SolveComplete | Assets/AquariumModule.cs:254-315 | every consistent vector extending `sofar` is yielded, so pruning drops no solution |
| Solver.LevelsComplete | Assets/AquariumModule.cs:277-313 | the level loop from level l yields every solution whose level there is at least l |
| Solver.SolveExtends | Assets/AquariumModule.cs:254-315 | every yielded vector keeps the fixed entries |
| Solver.LevelsExtends | Assets/AquariumModule.cs:277-313 | the level loop from l yields vectors with the branching region at l or above |
| Solver.SolveNoDup | Assets/AquariumModule.cs:254-315 | no vector is yielded twice |
| Solver.LevelsNoDup | Assets/AquariumModule.cs:277-313 | the level loop yields distinct vectors in ascending order of the branching level |
| Solver.LevelResultNoDup | Assets/AquariumModule.cs:279-311 | one pass yields distinct vectors, all with the branching region at that level |
| Solver.JoinLevels | Assets/AquariumModule.cs:309-310 | appending a later level's solutions keeps the list distinct and ordered |
| Solver.SolveExact | Assets/AquariumModule.cs:196 | from all-null `sofar` the solutions are exactly the consistent vectors, each once |
| Solver.UniqueIffAtMostOne | Assets/AquariumModule.cs:196 | `!Skip(1).Any()` holds iff the clues admit at most one solution |
| Solver.TalliedStep | Assets/AquariumModule.cs:286-299 | counting one cell keeps the bound arrays equal to their partial sums |
| Solver.TalliedStart | Assets/AquariumModule.cs:284-286 | a region's inner loop starts from the sums of the earlier regions |
| Solver.TalliedNext | Assets/AquariumModule.cs:284-300 | a finished region's inner loop leaves the sums through it |
| Solver.TallyCell | Assets/AquariumModule.cs:288-299 | unassigned regions increment max only; wet cells of assigned regions increment min and max |
| Solver.ComputeBounds | Assets/AquariumModule.cs:280-301 | the nested loops leave each bound array holding the summed [min, max] water per line |
| Solver.TallyRegion | Assets/AquariumModule.cs:286-300 | the inner loop adds one region to all four sums |
| Solver.Busted | Assets/AquariumModule.cs:302-307 | not pruned iff every non-null clue lies within its line's bounds |
| Solver.SelectRegion | Assets/AquariumModule.cs:256-269 | the selection loop with its `goto shortcut` returns the specified best region and size |
| Solver.SolveRecurse | Assets/AquariumModule.cs:254-315 | the recursive method over the shared `sofar` array returns the specified solutions in order and restores `sofar` |
| Solver.TryLevel | Assets/AquariumModule.cs:279-312 | one level: set `sofar[bestRegIx]`, bound, prune or recurse, then restore |
| RequiredClues.LineItems | Assets/AquariumModule.cs:200-202 | the items of one clue array are exactly its non-null clues, in index order |
| RequiredClues.RowsThenColumns | Assets/AquariumModule.cs:200-201 | row items followed by column items never name the same line twice |
| RequiredClues.AllClues | Assets/AquariumModule.cs:200-203 | `allClues` holds exactly the present clues, each line at most once |
| RequiredClues.Place | Assets/AquariumModule.cs:207-210 | the placed arrays have 6 entries each |
| RequiredClues.PlaceMembers | Assets/AquariumModule.cs:207-210 | a line is set iff an item under test names it, and then holds that item's value |
| RequiredClues.PlaceLineStep | Assets/AquariumModule.cs:209-210 | placing one more item sets its line and only it |
| RequiredClues.PlaceShownStep | Assets/AquariumModule.cs:209-210 | placing one more item overwrites no earlier item |
| RequiredClues.NamesSnoc | Assets/AquariumModule.cs:209 | one more item names its own line besides the earlier ones |
| RequiredClues.PlaceAll | Assets/AquariumModule.cs:205-210 | placing every item rebuilds the full clue arrays |
| RequiredClues.PlaceAllAt | Assets/AquariumModule.cs:205-210 | the same, line by line |
| RequiredClues.PlaceAllWitness | Assets/AquariumModule.cs:209-210 | every item of the full set names its line |
| RequiredClues.FewerCluesMoreSolutions | Assets/AquariumModule.cs:205-211 | dropping clues keeps every solution a solution |
| RequiredClues.PlaceIsSubset | Assets/AquariumModule.cs:207-210 | any subset places a sub-assignment of the full clues |
| RequiredClues.PlaceClues | Assets/AquariumModule.cs:207-210 | the loop into fresh arrays computes the placed clues |
| RequiredClues.TestClueSubset | Assets/AquariumModule.cs:205-212 | the callback answers true iff the subset's clues admit at most one solution |
| RequiredClues.PassingSubsetPinsSolution | Assets/AquariumModule.cs:205-212 | a passing subset of a generated puzzle admits its own levels and nothing else |
| RequiredClues.FullSetPasses | Assets/AquariumModule.cs:196-212 | the full clue set passes the callback, the start of the reduction |
| RequiredClues.Pick | Assets/AquariumModule.cs:213 | `requiredClues` lists the chosen items in order |
| RequiredClues.ShownClueFacts | Assets/AquariumModule.cs:218-224 | `FirstOrDefault` is empty iff no required item names the line, and otherwise returns a required item's value for it |
| RequiredClues.ShownIsPlaced | Assets/AquariumModule.cs:213-225 | the row and column texts show exactly the clues the final set places |
| Shell.Zeros | Assets/AquariumModule.cs:68 | a new square array is all 0 (unfilled) |
| Shell.PressAt | Assets/AquariumModule.cs:81-93 | once solved a press changes nothing; otherwise it cycles the square to (v + 1) % 3, and the module becomes solved iff every square shows its target |
| Shell.ResetAt | Assets/AquariumModule.cs:66-70 | reset clears every square iff unsolved, and leaves a solved module alone |
| Shell.ZerosDoNotMatch | Assets/AquariumModule.cs:68-89 | a cleared board never matches a solution, since targets are 1 or 2 |
| Shell.PressKeeps | Assets/AquariumModule.cs:81-93 | a press keeps squares in 0..2 and `solved` true exactly after a matching board; solved is never cleared |
| Shell.ResetKeeps | Assets/AquariumModule.cs:66-70 | reset keeps that invariant |
| Shell.ThreePressesCycle | Assets/AquariumModule.cs:84 | three presses of one square return it to its value |
| Shell.Run | Assets/AquariumModule.cs:81-90 | a sequence of presses keeps the board size |
| Shell.Cycled | Assets/AquariumModule.cs:84 | presses, each honoured, keep the board size |
| Shell.CycledCount | Assets/AquariumModule.cs:84 | each square ends at its start plus its number of presses, mod 3 |
| Shell.RunUnsolved | Assets/AquariumModule.cs:81-84 | a run that leaves the module unsolved honoured every press |
| Shell.RunKeeps | Assets/AquariumModule.cs:81-93 | a run keeps the invariant |
| Shell.PressCount | Assets/AquariumModule.cs:495 | `(3 + d - c) % 3` is a count in [0, 3) |
| Shell.Reach | Assets/AquariumModule.cs:495 | pressing `(3 + d - c) % 3` times from c leaves d, and n presses leave d iff n is that count plus a multiple of 3 |
| Shell.Repeat | Assets/AquariumModule.cs:495 | `Enumerable.Repeat` lists one square n times |
| Shell.CountConcat | Assets/AquariumModule.cs:495 | counts add over concatenation |
| Shell.RepeatCount | Assets/AquariumModule.cs:495 | a repeated square occurs n times, no other square at all |
| Shell.SetPresses | Assets/AquariumModule.cs:491-495 | the water/air/reset command presses only squares of the board |
| Shell.SetPressesCount | Assets/AquariumModule.cs:495 | a square named m times is pressed m times its press count |
| Shell.SetPressesSplit | Assets/AquariumModule.cs:495 | `SelectMany` lists the head square's presses, then the rest |
| Shell.SetCommandSets | Assets/AquariumModule.cs:489-495 | naming distinct squares, the command sets each named square to the desired value and leaves the others, unless the module solves on the way |
| Shell.SetCommandRepeats | Assets/AquariumModule.cs:489-495 | with names possibly repeated, a square named m times advances by m times its press count, read once at command time, unless the module solves on the way |
| Shell.SetRepeatedAt | Assets/AquariumModule.cs:495 | the same for the cycled value of one square |
| Shell.WaterTwiceIsAir | Assets/AquariumModule.cs:489-495 | `water` naming an unfilled square twice leaves it air, unless the module solves on the way |
| Shell.SetCycled | Assets/AquariumModule.cs:495 | the same, for the square values |
| Shell.SetCycledAt | Assets/AquariumModule.cs:495 | the same, for one square |
| Shell.SetCell | Assets/AquariumModule.cs:495 | the per-square count reaches the desired value on named squares and leaves the others |
| Shell.SetPressesOnce | Assets/AquariumModule.cs:495 | naming distinct squares, a named square is pressed exactly its press count times and an unnamed one never |
| Shell.PressReaches | Assets/AquariumModule.cs:495 | a square pressed its press count times ends at the desired value, and an unpressed one keeps its value |
| Shell.DistinctCount | Assets/AquariumModule.cs:491 | a square named once among distinct squares occurs once |
| Shell.Unfilled | Assets/AquariumModule.cs:503 | `SelectIndexWhere(c => c == 0)` lists squares of the board |
| Shell.UnfilledCount | Assets/AquariumModule.cs:503 | each unfilled square is listed once and no other square |
| Shell.UnfilledAbove | Assets/AquariumModule.cs:503 | no square beyond the board is listed |
| Shell.RestPresses | Assets/AquariumModule.cs:501-505 | the rest command presses only squares of the board |
| Shell.RestCommandFills | Assets/AquariumModule.cs:501-505 | the rest command turns every unfilled square into water (1 press) or air (2 presses) and leaves the others, unless the module solves on the way |
| Shell.RestCycled | Assets/AquariumModule.cs:503-504 | the same, for the square values |
| Shell.RestAt | Assets/AquariumModule.cs:503-504 | the same, for one square |
| Shell.RestCell | Assets/AquariumModule.cs:503-504 | the same, by press count |
| Shell.SolvePresses | Assets/AquariumModule.cs:509-511 | the solve command presses only the squares it has scanned |
| Shell.SolvePressesCount | Assets/AquariumModule.cs:510-511 | square x is pressed exactly as often as it takes to reach `#` = water or `.` = air |
| Shell.SolveCommandSolves | Assets/AquariumModule.cs:507-512 | the solve command with the solution's picture always solves the module |
| Shell.SolveCycled | Assets/AquariumModule.cs:510-511 | presses, all honoured, leave every square at the picture's value |
| Shell.SolveAt | Assets/AquariumModule.cs:510-511 | the same, for one square |
| Shell.CycledReach | Assets/AquariumModule.cs:495 | a square pressed exactly its press count times reaches the desired value |
| Shell.Coord | Assets/AquariumModule.cs:518-523 | a square iff two characters, a letter A-F in either case then a digit 1-6; then column = the letter, row = the digit |
| Shell.Name | Assets/AquariumModule.cs:520-521 | a square's name has two characters |
| Shell.CoordName | Assets/AquariumModule.cs:518-523 | every square's name, upper or lower case, reads back as that square |
| Shell.CoordOnlyNames | Assets/AquariumModule.cs:518-523 | a string naming a square is that square's name in one of the two cases |
| Shell.CoordExamples | Assets/AquariumModule.cs:518-523 | "C4" and "c4" are square 20; "G1", "A7", "A12" and "" name no square |
| Shell.CoordsOf | Assets/AquariumModule.cs:491-493 | the command's squares exist iff every name is a coordinate, and then are those coordinates in order |
| Shell.Module.constructor | Assets/AquariumModule.cs:34-40 | a new module has every square unfilled and is not solved |
| Shell.Module.Press | Assets/AquariumModule.cs:74-98 | the press handler, with its solved-check loop, takes the module to `PressAt` of its state |
| Shell.Module.ResetPressed | Assets/AquariumModule.cs:62-72 | the reset handler takes the module to `ResetAt` of its state, with a fresh square array when unsolved |
| Tracer.StepBoundary | Assets/AquariumModule.cs:408-477 | one pass of the switch takes a boundary edge to a boundary edge, and the step can be undone |
| Tracer.IterSnoc | Assets/AquariumModule.cs:402-478 | n + 1 passes are one pass after n |
| Tracer.IterBoundary | Assets/AquariumModule.cs:402-478 | the walk stays on the boundary |
| Tracer.IterAdd | Assets/AquariumModule.cs:402-478 | a + b passes are b passes after a |
| Tracer.IterCancel | Assets/AquariumModule.cs:402-478 | a walk that meets itself after a and b passes is back at its start after b - a |
| Tracer.IterPred | Assets/AquariumModule.cs:402-478 | stepping back from pass n gives pass n - 1 |
| Tracer.CodeRange | Assets/AquariumModule.cs:397 | a boundary edge is one of 4 * 7 * 7 states |
| Tracer.CodeInjective | Assets/AquariumModule.cs:397 | distinct boundary edges have distinct codes |
| Tracer.Pigeonhole | Assets/AquariumModule.cs:402 | more than n values below n repeat |
| Tracer.Returns | Assets/AquariumModule.cs:402-413 | the walk from a boundary edge returns to it within 196 passes, so `while (true)` ends |
| Tracer.ReturnAfter | Assets/AquariumModule.cs:411-413 | the first return at or after k |
| Tracer.Period | Assets/AquariumModule.cs:411-413 | the length of one lap: the first return to the start |
| Tracer.UpsInHas | Assets/AquariumModule.cs:412-415 | a pass on an up edge marks it |
| Tracer.UpsInWitness | Assets/AquariumModule.cs:415 | every mark comes from a pass on that up edge |
| Tracer.UpsInEdges | Assets/AquariumModule.cs:415 | marks fall on left edges, so inside the `visitedUpArrow` array |
| Tracer.IterWrap | Assets/AquariumModule.cs:402-478 | after a return, the walk repeats its first lap |
| Tracer.PeriodDistinct | Assets/AquariumModule.cs:411-413 | no edge repeats within one lap |
| Tracer.TraceFresh | Assets/AquariumModule.cs:411-415 | within the lap from an unmarked arrow, every up edge met is new, so `visitedUpArrow[i][j]` stops the walk exactly at its start |
| Tracer.TraceClosed | Assets/AquariumModule.cs:337-338 | adding a whole lap keeps the marks closed under laps |
| Tracer.LapClosedAt | Assets/AquariumModule.cs:337-338 | the walk from an arrow of a lap meets only arrows of that lap |
| Tracer.StepGeometry | Assets/AquariumModule.cs:408-477 | each pass moves one unit edge along its direction, and a change of direction is a quarter turn |
| Tracer.PerpIsClassified | Assets/AquariumModule.cs:363-381 | the quarter turns are exactly the eight corner cases of the classifier |
| Tracer.Alternates | Assets/AquariumModule.cs:388-393 | segments alternate between vertical and horizontal |
| Tracer.RectilinearEven | Assets/AquariumModule.cs:342-382 | a rectilinear cycle of two or more corners has an even number of corners, at least 4 |
| Tracer.ShapeStraight | Assets/AquariumModule.cs:428-429 | a straight move keeps the shape of the corners so far |
| Tracer.ShapeTurn | Assets/AquariumModule.cs:419-420 | a turn appends the corner where the new edge begins |
| Tracer.ShapeStep | Assets/AquariumModule.cs:402-478 | one pass keeps the shape of the corners so far |
| Tracer.ShapeAtStep | Assets/AquariumModule.cs:408-477 | a pass described by its geometry keeps that shape |
| Tracer.ShapeAll | Assets/AquariumModule.cs:402-478 | the shape holds after any number of passes |
| Tracer.OutlineShape | Assets/AquariumModule.cs:397-479 | a lap from an up arrow records a closed rectilinear polygon |
| Tracer.LapEdges | Assets/AquariumModule.cs:415 | a lap marks only up arrows |
| Tracer.MarkedFacts | Assets/AquariumModule.cs:334-338 | the marks of the laps so far are closed and are up arrows |
| Tracer.StartsUp | Assets/AquariumModule.cs:337 | every walk starts on an up arrow (cell present, left neighbour absent) |
| Tracer.UpWrap | Assets/AquariumModule.cs:334-335 | moving to the next column keeps that |
| Tracer.UpStep | Assets/AquariumModule.cs:335-338 | one position keeps that |
| Tracer.FoundUp | Assets/AquariumModule.cs:337-338 | a position starts a walk only on an up arrow |
| Tracer.Outlines | Assets/AquariumModule.cs:338 | one outline per walk started |
| Tracer.TracePolygon | Assets/AquariumModule.cs:397-479 | the walk from an unmarked up arrow returns its lap's corners and marks exactly its lap's up arrows |
| Tracer.TracePass | Assets/AquariumModule.cs:402-478 | one pass: stop at the start with the outline, or advance one step, within the lap |
| Tracer.TraceStep | Assets/AquariumModule.cs:402-478 | what pass k of the walk sees and leaves, and that it is back at a marked arrow iff the lap is done |
| Tracer.Mark | Assets/AquariumModule.cs:415 | `visitedUpArrow[i][j] = true` adds (i, j) to the marks |
| Tracer.Advance | Assets/AquariumModule.cs:408-477 | the moves of the switch are the step; a corner is recorded exactly when the direction changes |
| Tracer.CollectOutlines | Assets/AquariumModule.cs:329-338 | the loop collects the outlines of the walks from the unmarked up arrows in column-major order |
| Tracer.ScanColumn | Assets/AquariumModule.cs:335-338 | the inner loop over one column |
| Tracer.Visit | Assets/AquariumModule.cs:337-338 | one position: an unmarked up arrow starts a new outline |
| Tracer.OutlinesSnoc | Assets/AquariumModule.cs:338 | `outlines.Add` appends the new outline |
| Tracer.OutlineIsClosed | Assets/AquariumModule.cs:397-479 | every outline is closed and rectilinear, with an even number of at least 4 corners |
| Tracer.ScanShapes | Assets/AquariumModule.cs:329-338 | every collected outline is closed and rectilinear |
| Tracer.LapHasStart | Assets/AquariumModule.cs:412-415 | a lap marks its own start |
| Tracer.LapFresh | Assets/AquariumModule.cs:337-338 | a lap from an unmarked arrow meets no earlier marks |
| Tracer.MarkedHoldsLaps | Assets/AquariumModule.cs:334-338 | every lap's arrows are among the marks |
| Tracer.FoundMarks | Assets/AquariumModule.cs:337-338 | a position keeps the marks and, on an up arrow, leaves it marked |
| Tracer.FoundDisjoint | Assets/AquariumModule.cs:337-338 | a position keeps the laps pairwise disjoint |
| Tracer.DisjointStep | Assets/AquariumModule.cs:335-338 | one row keeps them disjoint |
| Tracer.StartsWrap | Assets/AquariumModule.cs:334-335 | finishing column i - 1 is starting column i |
| Tracer.ScanCovers | Assets/AquariumModule.cs:334-338 | every up arrow before the current position is marked |
| Tracer.CoversWrap | Assets/AquariumModule.cs:334-335 | moving to the next column keeps that |
| Tracer.CoversAt | Assets/AquariumModule.cs:335-338 | one position keeps that |
| Tracer.CoversStep | Assets/AquariumModule.cs:337-338 | the same, for the list of starts |
| Tracer.ScanDisjoint | Assets/AquariumModule.cs:334-338 | the laps of the collected outlines are pairwise disjoint |
| Tracer.DisjointWrap | Assets/AquariumModule.cs:334-335 | moving to the next column keeps them disjoint |
| Tracer.AllArrowsMarked | Assets/AquariumModule.cs:334-338 | after the loop, the marks are exactly the up arrows: each left edge is marked by exactly one outline |
| Tracer.SkipRows | Assets/AquariumModule.cs:335-337 | rows without up arrows change nothing |
| Tracer.SkipColumns | Assets/AquariumModule.cs:334-337 | columns without up arrows change nothing |
| Tracer.NoCellsNoOutlines | Assets/AquariumModule.cs:334-338 | an empty cell set yields no outlines |
| Tracer.LapOf | Assets/AquariumModule.cs:402-478 | a walk that first returns after p passes has those corners and marks as its outline and lap |
| Tracer.FirstSquare | Assets/AquariumModule.cs:408-476 | for cells {0, 7}, the walk from (0, 0) traces the unit square at (0, 0) |
| Tracer.SecondSquare | Assets/AquariumModule.cs:408-476 | for cells {0, 7}, the walk from (1, 1) traces the unit square at (1, 1) |
| Tracer.DiagonalGet | Assets/AquariumModule.cs:395 | cells 0 and 7 are positions (0, 0) and (1, 1) |
| Tracer.DiagonalColumnZero | Assets/AquariumModule.cs:334-338 | column 0 of {0, 7} starts one walk, at (0, 0) |
| Tracer.DiagonalColumnOne | Assets/AquariumModule.cs:334-338 | column 1 starts a second walk, at (1, 1) |
| Tracer.DiagonalColumnOneTop | Assets/AquariumModule.cs:335-338 | rows 0 and 1 of column 1 add that walk |
| Tracer.FoundDiag | Assets/AquariumModule.cs:337 | (1, 1) is an up arrow the first lap did not mark, because right turns come first |
| Tracer.DiagonalColumnOneRowZero | Assets/AquariumModule.cs:335-337 | row 0 of column 1 adds nothing |
| Tracer.DiagonalStarts | Assets/AquariumModule.cs:334-338 | for {0, 7} walks start at (0, 0) and (1, 1) only |
| Tracer.DiagonalCellsStaySeparate | Assets/AquariumModule.cs:329-338 | two cells touching at a corner give two separate 4-corner outlines |
| Tracer.Get | Assets/AquariumModule.cs:395 | `get`: whether (x, y) lies in the grid and is a present cell |
| Tracer.GetDir | Assets/AquariumModule.cs:388-393 | `getDir`: the direction from one corner to the next, Up or Down when the x coordinates agree, otherwise Left or Right |
| Tracer.Next | Assets/AquariumModule.cs:408-477 | the state after one pass of the `switch (dir)`: the next position and direction along the boundary |
| Solver.Solve | Assets/AquariumModule.cs:254-315 | `solveRecurse` as a function: `[Values(sofar)]` when every region is assigned, otherwise the level loop on the best region |
| Solver.Levels | Assets/AquariumModule.cs:278-313 | the `for (level …)` loop from a given level: each level's results followed by those of the later levels |
| Solver.LevelResult | Assets/AquariumModule.cs:280-310 | one level: no result when the bounds bust a clue, otherwise the recursive search with that level set |
| Solver.BestScan | Assets/AquariumModule.cs:256-269 | the selection loop over the first n regions: the first unassigned region of fewest rows, with its size, starting from (-1, 7) |
| Growth.Insert | Assets/AquariumModule.cs:124-125 | `adjs.Add(adj)`: appends a neighbour that is outside the region, not forbidden and not yet listed |
| Composer.Wet | Assets/AquariumModule.cs:162 | a region cell is water at a level iff its row is greater than BottomRow − level |
| Composer.Clue | Assets/AquariumModule.cs:192-193 | a line count of 0 or full gives no clue, any other count is the clue |
| Shell.Target | Assets/AquariumModule.cs:89 | the value a square must show: 1 for water, 2 for air |
| Shell.ShowsSolution | Assets/AquariumModule.cs:88-89 | the solved check: every square shows its target |
| Puzzle.Ambiguous | Assets/AquariumModule.cs:196 | the search from an all-null assignment yields more than one solution |
| RequiredClues.ShownClue | Assets/AquariumModule.cs:218-223 | `requiredClues.FirstOrDefault(...)` by its value: the clue of the first required item naming that row or column, or none |
| Solver.Fits | Assets/AquariumModule.cs:302-307 | the pruning test passes: every present row and column clue lies within its line's [min, max] bounds |
| Solver.PartMin | Assets/AquariumModule.cs:284-301 | what a region's first k cells add to a line's minimum: their water if the region is assigned, otherwise nothing |
| Solver.PartMax | Assets/AquariumModule.cs:284-301 | what a region's first k cells add to a line's maximum: their water if the region is assigned, otherwise every such cell on the line |
| Solver.SumMin | Assets/AquariumModule.cs:284-301 | `horizMin`/`vertMin` after the first n regions: the sum of their minimum contributions to the line |
| Solver.SumMax | Assets/AquariumModule.cs:284-301 | `horizMax`/`vertMax` after the first n regions: the sum of their maximum contributions to the line |
| Solver.Best | Assets/AquariumModule.cs:256-269 | `bestRegIx`: the region the selection loop picks over all regions, -1 when all are assigned |
| Growth.InsertAll | Assets/AquariumModule.cs:123-125 | the `adjs.Add` calls for a list of candidate neighbours, in order |
| Growth.FrontierUpTo | Assets/AquariumModule.cs:120-125 | `adjs` after the scan has visited cells 0 .. i-1: each region cell's neighbours offered in turn |
| Tracer.Lap | Assets/AquariumModule.cs:412-415 | the up arrows that `visitedUpArrow[i][j] = true` marks during one walk from an up arrow, up to its first return |
| Tracer.Outline | Assets/AquariumModule.cs:397-478 | `tracePolygon`'s result: the corners recorded during one walk from an up arrow, up to its first return |
| Tracer.Starts | Assets/AquariumModule.cs:334-338 | the up arrows the outline loop starts a walk from before position (i, j), in column-major order |
| Tracer.Found | Assets/AquariumModule.cs:337-338 | position (i, j) of the loop: a new start iff it is an up arrow no earlier walk marked |
| Tracer.Corners | Assets/AquariumModule.cs:417-475 | `result` after k passes of the walk: the corners emitted so far, in order |
| Tracer.Emitted | Assets/AquariumModule.cs:417-475 | the `result.Add` of one pass: the start of the new edge when the direction changes, nothing otherwise |
| Shell.Desired | Assets/AquariumModule.cs:511 | the value the solve command asks of a square: 1 for `#`, 2 for any other character |
| Shell.Column | Assets/AquariumModule.cs:520 | `"ABCDEFabcdef".IndexOf(c) % 6`: a letter's place in the alphabet, whatever its case |
| Shell.RowOf | Assets/AquariumModule.cs:520 | `"123456".IndexOf(c)`: a digit's value minus one |

## Left out

- Unity engine side effects are not modelled: selectables, materials and `UpdateVisuals`, audio, interaction punches, `Module.HandlePass`, and the debug log (lines 43-60, 64-65, 78-79, 92, 94).
- The border toggling (lines 228-241) is not modelled. It only switches scene objects on or off.
- The SVG text is not modelled: its strings, double-valued margins and gaps, and clue-label offsets (lines 243-251, 340-385). Only the integer corner lists it starts from are modelled, together with the fact that every corner pair falls in one of the classifier's eight cases.
- `Ut.ReduceRequiredSet` and `Shuffle` live in code that is not part of this model. What is modelled is the `test` callback they are given (lines 205-212), the full set passing it, and the texts the result shows. How small the reduced set is, and the shuffled order, are not modelled.
- The regex matching in `ProcessTwitchCommand` (lines 489, 498, 501, 507) is not modelled. The commands appear as their parsed arguments: the list of names, the desired value, water or air, and the 36-character picture. The single reset command (lines 498-499) is the reset button.
- The `TwitchHandleForcedSolve` coroutine (lines 525-541) is not modelled. It waits on the engine between presses.
- Randomness is an explicit stream of draws. No claim is made about the distribution.
- The `goto tryAgain` loop is bounded by the draw stream. A stream that keeps producing ambiguous puzzles until it runs out yields `None`.
- Solver.SolveRecurse: returns the whole list of solutions instead of a lazy enumerator. `Skip(1).Any()` and the `sofar` left unrestored when enumeration stops early are not modelled. Callers pass fresh arrays, so this does not matter.
- The `RegionInfo(int[] cells)` constructor (lines 152-154) is not modelled. Nothing in the core calls it.
- The grid is fixed at 6×6. Three places mix width and height without harm because the grid is square: `cell / gridHeight` (line 103), the `bool[w][]` rows sized `h` (lines 330-332) and `col < _h` (line 305). The tracer takes its cells as a set of indices rather than an `int[]`.
- Growth.ComputeFrontier: the frontier keeps HashSet insertion order. This is the enumeration order of a .NET `HashSet<int>` that never had an element removed; it is an assumption about the library, not proved.
- Three facts about the code that the model keeps:
  - growth adds only up, down, left and right neighbours, because the filter at line 107 drops diagonals;
  - a walk starts at a present cell whose left neighbour is absent (line 337);
  - consecutive corners share one coordinate but may lie several units apart, because a corner is recorded only at a turn (lines 417-475).
- Tracer.Advance: the `switch (dir)` of `tracePolygon` is one method. The visited check and the mark are in `TracePass`. Each recorded corner is the start of the edge after a turn, derived from the change of direction.
- Tracer.Outline, Tracer.Lap: these are total functions that return empty for a position that is not an up arrow. The source never traces from such a position.
- Shell.Module.Press: the class holds the square values, the solution and the solved flag. Audio, visuals and `HandlePass` are left out.
