module Partition {
  import opened Opt
  import opened Grid
  import opened Oracle
  import opened RegionInfos
  import opened Growth

  /** The number of set entries of a mask (`numCovered` tracks it). */
  function CountTrue(s: seq<bool>): (n: nat)
    ensures n <= |s|
  {
    if s == [] then 0 else CountTrue(s[..|s| - 1]) + (if s[|s| - 1] then 1 else 0)
  }

  lemma {:induction false} CountTrueSet(s: seq<bool>, i: int)
    requires 0 <= i < |s| && !s[i]
    ensures CountTrue(s[i := true]) == CountTrue(s) + 1
  {
    var t := s[i := true];
    if i < |s| - 1 {
      assert t[..|t| - 1] == s[..|s| - 1][i := true];
      CountTrueSet(s[..|s| - 1], i);
    } else {
      assert t[..|t| - 1] == s[..|s| - 1];
    }
  }

  lemma {:induction false} CountTrueAll(s: seq<bool>)
    requires CountTrue(s) >= |s|
    ensures forall c :: 0 <= c < |s| ==> s[c]
  {
    if s != [] {
      CountTrueAll(s[..|s| - 1]);
      assert forall c :: 0 <= c < |s| - 1 ==> s[..|s| - 1][c] == s[c];
    }
  }

  const NoneCovered: seq<bool> := Uncovered(N)

  /** `new bool[n]`: a mask with no cell set. */
  function Uncovered(n: nat): (s: seq<bool>)
    ensures |s| == n && forall c :: 0 <= c < n ==> !s[c]
  {
    if n == 0 then [] else Uncovered(n - 1) + [false]
  }

  /** `covered` after the cells of a new region have been set. */
  function Cover(covered: seq<bool>, order: seq<int>): (r: seq<bool>)
    requires IsMask(covered)
    ensures IsMask(r)
  {
    seq(N, c requires 0 <= c < N => covered[c] || c in order)
  }

  predicate NonEmptyCells(orders: seq<seq<int>>)
  {
    forall k :: 0 <= k < |orders| ==> |orders[k]| > 0 && AllCells(orders[k])
  }

  /**
   * The `while (numCovered < 36)` loop from a given `covered` mask: each round
   * draws `maxSize` from [0, 12) and grows a region against the covered cells.
   * Returns every region's cells in growth order and the unread draws.
   */
  function PartitionLoop(covered: seq<bool>, draws: seq<nat>): (r: Option<(seq<seq<int>>, seq<nat>)>)
    requires IsMask(covered)
    ensures r.Some? ==> |r.value.1| <= |draws| && (CountTrue(covered) < N ==> |r.value.1| < |draws|)
    ensures r.Some? ==> NonEmptyCells(r.value.0)
    decreases |draws|
  {
    if CountTrue(covered) >= N then Some(([], draws))
    else
      match Range(draws, 12)
      case None => None
      case Some((maxSize, d1)) =>
        match Grow(maxSize, covered, d1)
        case None => None
        case Some((order, d2)) =>
          match PartitionLoop(Cover(covered, order), d2)
          case None => None
          case Some((more, d3)) => Some(([order] + more, d3))
  }

  /** The regions of a partition loop never overlap, nor overlap what was covered before. */
  ghost predicate Tiles(covered: seq<bool>, rs: seq<seq<int>>)
    requires IsMask(covered)
  {
    && (forall k :: 0 <= k < |rs| ==> Attached(rs[k]))
    && (forall k, c :: 0 <= k < |rs| && c in rs[k] ==> !covered[c])
    && (forall j, k :: 0 <= j < k < |rs| ==> Apart(rs[j], rs[k]))
    && (forall c :: IsCell(c) && !covered[c] ==> exists k :: 0 <= k < |rs| && c in rs[k])
  }

  /** The two regions share no cell. */
  ghost predicate Apart(a: seq<int>, b: seq<int>)
  {
    forall c :: c in a ==> c !in b
  }

  lemma TilesStep(covered: seq<bool>, order: seq<int>, more: seq<seq<int>>)
    requires IsMask(covered) && Grown(covered, order)
    requires Tiles(Cover(covered, order), more)
    ensures Tiles(covered, [order] + more)
  {
    var rs := [order] + more;
    assert rs[0] == order;
    assert forall k :: 1 <= k < |rs| ==> rs[k] == more[k - 1];
    TilesCovers(covered, order, more);
    TilesFresh(covered, order, more);
    forall k | 0 <= k < |more|
      ensures Apart(order, more[k])
    {
      FirstApart(covered, order, more, k);
    }
    TilesApart(order, more);
  }

  /** Every cell left uncovered lands in the new region or in a later one. */
  lemma TilesCovers(covered: seq<bool>, order: seq<int>, more: seq<seq<int>>)
    requires IsMask(covered) && Grown(covered, order)
    requires Tiles(Cover(covered, order), more)
    ensures forall c :: IsCell(c) && !covered[c] ==> exists k :: 0 <= k < |more| + 1 && c in ([order] + more)[k]
  {
    var covered' := Cover(covered, order);
    var rs := [order] + more;
    forall c | IsCell(c) && !covered[c]
      ensures exists k :: 0 <= k < |rs| && c in rs[k]
    {
      if c !in order {
        assert !covered'[c];
        var k :| 0 <= k < |more| && c in more[k];
        assert rs[k + 1] == more[k];
      } else {
        assert rs[0] == order;
      }
    }
  }

  /** No region of the loop uses a cell covered before it started. */
  lemma TilesFresh(covered: seq<bool>, order: seq<int>, more: seq<seq<int>>)
    requires IsMask(covered) && Grown(covered, order)
    requires Tiles(Cover(covered, order), more)
    ensures forall k, c :: 0 <= k < |more| + 1 && c in ([order] + more)[k] ==> !covered[c]
  {
    var covered' := Cover(covered, order);
    var rs := [order] + more;
    forall k, c | 0 <= k < |rs| && c in rs[k]
      ensures !covered[c]
    {
      if k > 0 {
        assert rs[k] == more[k - 1];
        assert IsCell(c) by {
          var p :| 0 <= p < |more[k - 1]| && more[k - 1][p] == c;
        }
        assert !covered'[c];
      } else {
        assert rs[0] == order;
        var p :| 0 <= p < |order| && order[p] == c;
      }
    }
  }

  /** The new region and the later ones share no cell. */
  lemma TilesApart(order: seq<int>, more: seq<seq<int>>)
    requires forall k :: 0 <= k < |more| ==> Apart(order, more[k])
    requires forall j, k :: 0 <= j < k < |more| ==> Apart(more[j], more[k])
    ensures forall j, k :: 0 <= j < k < |more| + 1 ==> Apart(([order] + more)[j], ([order] + more)[k])
  {
    var rs := [order] + more;
    forall j, k | 0 <= j < k < |rs|
      ensures Apart(rs[j], rs[k])
    {
      assert rs[k] == more[k - 1];
      if j == 0 {
        assert rs[0] == order;
      } else {
        assert rs[j] == more[j - 1];
      }
    }
  }

  lemma FirstApart(covered: seq<bool>, order: seq<int>, more: seq<seq<int>>, k: int)
    requires IsMask(covered) && Grown(covered, order)
    requires Tiles(Cover(covered, order), more)
    requires 0 <= k < |more|
    ensures Apart(order, more[k])
  {
    forall c | c in order
      ensures c !in more[k]
    {
      var p :| 0 <= p < |order| && order[p] == c;
      assert Cover(covered, order)[c];
    }
  }

  lemma {:induction false} PartitionLoopShape(covered: seq<bool>, draws: seq<nat>)
    requires IsMask(covered) && PartitionLoop(covered, draws).Some?
    ensures Tiles(covered, PartitionLoop(covered, draws).value.0)
    decreases |draws|
  {
    if CountTrue(covered) >= N {
      CountTrueAll(covered);
    } else {
      var maxSize, d1 := draws[0], draws[1..];
      var (order, d2) := Grow(maxSize, covered, d1).value;
      GrowShape(maxSize, covered, d1);
      PartitionLoopShape(Cover(covered, order), d2);
      TilesStep(covered, order, PartitionLoop(Cover(covered, order), d2).value.0);
    }
  }

  lemma {:induction false} CountTrueNone(s: seq<bool>)
    requires forall c :: 0 <= c < |s| ==> !s[c]
    ensures CountTrue(s) == 0
  {
    if s != [] {
      CountTrueNone(s[..|s| - 1]);
    }
  }

  lemma NoneCoveredCount()
    ensures CountTrue(NoneCovered) == 0
  {
    CountTrueNone(NoneCovered);
  }

  /**
   * The regions the partition produces from an empty grid are non-empty,
   * 4-connected, pairwise disjoint, and together cover all 36 cells.
   */
  lemma PartitionShape(draws: seq<nat>)
    requires PartitionLoop(NoneCovered, draws).Some?
    ensures Tiles(NoneCovered, PartitionLoop(NoneCovered, draws).value.0)
    ensures |PartitionLoop(NoneCovered, draws).value.0| >= 1
  {
    PartitionLoopShape(NoneCovered, draws);
    assert IsCell(0) && !NoneCovered[0];
  }

  /** One round of the partition loop, unfolded. */
  lemma PartitionRound(covered: seq<bool>, draws: seq<nat>)
    requires IsMask(covered) && CountTrue(covered) < N && PartitionLoop(covered, draws).Some?
    ensures |draws| > 0 && draws[0] < 12 && Grow(draws[0], covered, draws[1..]).Some?
    ensures var (order, d2) := Grow(draws[0], covered, draws[1..]).value;
      && PartitionLoop(Cover(covered, order), d2).Some?
      && PartitionLoop(covered, draws).value.0 == [order] + PartitionLoop(Cover(covered, order), d2).value.0
      && PartitionLoop(covered, draws).value.1 == PartitionLoop(Cover(covered, order), d2).value.1
  {
  }

  /** The inner `for` loop: set `covered[i]` and count it for every cell of the new region. */
  method CoverRegion(covered: array<bool>, newRegion: seq<bool>, numCovered: nat, ghost order: seq<int>)
    returns (numCovered': nat)
    requires covered.Length == N && numCovered == CountTrue(covered[..])
    requires Grown(covered[..], order) && newRegion == Mark(order)
    modifies covered
    ensures covered[..] == Cover(old(covered[..]), order)
    ensures numCovered' == CountTrue(covered[..]) && numCovered' > numCovered
  {
    ghost var before := covered[..];
    assert newRegion[order[0]];
    numCovered' := numCovered;
    for i := 0 to N
      invariant numCovered' == CountTrue(covered[..])
      invariant forall c :: 0 <= c < N ==> covered[c] == (before[c] || (c < i && newRegion[c]))
      invariant numCovered' >= numCovered
      invariant i > order[0] ==> numCovered' > numCovered
    {
      if newRegion[i] {
        assert !before[i];
        CountTrueSet(covered[..], i);
        covered[i] := true;
        numCovered' := numCovered' + 1;
      }
    }
    assert covered[..] == Cover(before, order);
  }

  /** `new RegionInfo(newRegion)` for a grown region. */
  function RegionOf(order: seq<int>): (info: RegionInfo)
    requires |order| > 0 && AllCells(order)
    ensures WellFormed(info) && info.region == Mark(order)
  {
    assert Mark(order)[order[0]];
    MakeRegionInfo(Mark(order))
  }

  /** The region list a sequence of grown regions yields. */
  function RegionsOf(orders: seq<seq<int>>): (rs: seq<RegionInfo>)
    requires NonEmptyCells(orders)
    ensures |rs| == |orders|
    ensures forall k :: 0 <= k < |orders| ==> WellFormed(rs[k]) && rs[k].region == Mark(orders[k])
  {
    seq(|orders|, k requires 0 <= k < |orders| => RegionOf(orders[k]))
  }

  lemma RegionsOfSnoc(orders: seq<seq<int>>, order: seq<int>)
    requires NonEmptyCells(orders) && |order| > 0 && AllCells(order)
    ensures NonEmptyCells(orders + [order])
    ensures RegionsOf(orders + [order]) == RegionsOf(orders) + [RegionOf(order)]
  {
    assert forall k :: 0 <= k < |orders| ==> (orders + [order])[k] == orders[k];
  }

  /**
   * One round of the loop of `GenerateRegions`: the grown region moves from
   * the pending part of the partition to the finished part.
   */
  lemma PartitionAdvance(c: seq<bool>, d: seq<nat>, draws: seq<nat>, orders: seq<seq<int>>,
                         pending: (seq<seq<int>>, seq<nat>), order: seq<int>, d': seq<nat>)
    requires IsMask(c) && CountTrue(c) < N && PartitionLoop(c, d) == Some(pending)
    requires PartitionLoop(NoneCovered, draws) == Some((orders + pending.0, pending.1))
    requires |d| > 0 && Grow(d[0], c, d[1..]) == Some((order, d'))
    ensures IsMask(Cover(c, order)) && PartitionLoop(Cover(c, order), d').Some?
    ensures var next := PartitionLoop(Cover(c, order), d').value;
      PartitionLoop(NoneCovered, draws) == Some(((orders + [order]) + next.0, next.1))
  {
    PartitionRound(c, d);
    ShiftFinished(orders, order, pending, PartitionLoop(Cover(c, order), d').value);
  }

  lemma ShiftFinished(orders: seq<seq<int>>, order: seq<int>, pending: (seq<seq<int>>, seq<nat>),
                      next: (seq<seq<int>>, seq<nat>))
    requires pending.0 == [order] + next.0 && pending.1 == next.1
    ensures (orders + pending.0, pending.1) == ((orders + [order]) + next.0, next.1)
  {
    assert orders + ([order] + next.0) == (orders + [order]) + next.0;
  }

  method GenerateRegions(draws: seq<nat>) returns (regions: seq<RegionInfo>, rest: seq<nat>, ghost orders: seq<seq<int>>)
    requires PartitionLoop(NoneCovered, draws).Some?
    ensures PartitionLoop(NoneCovered, draws) == Some((orders, rest))
    ensures NonEmptyCells(orders) && regions == RegionsOf(orders)
  {
    var covered := new bool[N](_ => false);
    assert covered[..] == NoneCovered;
    CountTrueNone(NoneCovered);
    var numCovered := 0;
    var d := draws;
    regions, orders := [], [];
    ghost var pending := PartitionLoop(covered[..], d).value;
    assert orders + pending.0 == pending.0;
    while numCovered < N
      invariant covered.Length == N && numCovered == CountTrue(covered[..])
      invariant PartitionLoop(covered[..], d) == Some(pending)
      invariant PartitionLoop(NoneCovered, draws) == Some((orders + pending.0, pending.1))
      invariant NonEmptyCells(orders) && regions == RegionsOf(orders)
      decreases N - numCovered
    {
      ghost var c := covered[..];
      var info, d';
      ghost var order;
      info, numCovered, d', order := PlaceRegion(covered, numCovered, d);
      RegionsOfSnoc(orders, order);
      PartitionAdvance(c, d, draws, orders, pending, order, d');
      regions, orders := regions + [info], orders + [order];
      d := d';
      pending := PartitionLoop(covered[..], d).value;
    }
    assert pending == ([], d);
    assert orders + [] == orders;
    rest := d;
  }

  /**
   * One round of the `while (numCovered < 36)` loop: grow a region from the
   * draws, record its `RegionInfo` and mark its cells covered.
   */
  method PlaceRegion(covered: array<bool>, numCovered: nat, d: seq<nat>)
      returns (info: RegionInfo, numCovered': nat, d': seq<nat>, ghost order: seq<int>)
    requires covered.Length == N && numCovered == CountTrue(covered[..]) && numCovered < N
    requires PartitionLoop(covered[..], d).Some?
    modifies covered
    ensures |d| > 0 && Grow(d[0], old(covered[..]), d[1..]) == Some((order, d'))
    ensures |order| > 0 && AllCells(order) && info == RegionOf(order)
    ensures covered[..] == Cover(old(covered[..]), order)
    ensures numCovered' == CountTrue(covered[..]) && numCovered' > numCovered
  {
    PartitionRound(covered[..], d);
    var maxSize := d[0];
    GrowShape(maxSize, covered[..], d[1..]);
    var newRegion;
    newRegion, d', order := GenerateContiguousRegion(maxSize, covered[..], d[1..]);
    assert newRegion[order[0]];
    info := MakeRegionInfo(newRegion);
    numCovered' := CoverRegion(covered, newRegion, numCovered, order);
  }
}
