/**
 * Region growth (`GenerateContiguousRegion`) and the partition loop of
 * `GenerateAquarium` that grows regions until all 36 cells are covered.
 */
module Growth {
  import opened Opt
  import opened Grid
  import opened Oracle
  import opened RegionInfos

  predicate IsMask(m: seq<bool>) { |m| == N }

  predicate AllCells(s: seq<int>) { forall k :: 0 <= k < |s| ==> IsCell(s[k]) }

  /** The mask whose set cells are exactly those of `order`. */
  function Mark(order: seq<int>): (m: seq<bool>)
    ensures |m| == N && forall c :: 0 <= c < N ==> m[c] == (c in order)
  {
    seq(N, c => c in order)
  }

  /** `forbidden.SelectIndexWhere(b => !b)`: the allowed cells, ascending. */
  function AllowedBelow(forbidden: seq<bool>, n: nat): (r: seq<int>)
    requires IsMask(forbidden) && n <= N
    ensures forall c :: c in r <==> 0 <= c < n && !forbidden[c]
    ensures AllCells(r)
  {
    if n == 0 then []
    else AllowedBelow(forbidden, n - 1) + (if !forbidden[n - 1] then [n - 1] else [])
  }

  function Allowed(forbidden: seq<bool>): (r: seq<int>)
    requires IsMask(forbidden)
    ensures forall c :: c in r <==> IsCell(c) && !forbidden[c]
    ensures AllCells(r)
  {
    AllowedBelow(forbidden, N)
  }

  // ---------------------------------------------------------------------------
  // The frontier `adjs`: a HashSet filled by scanning the region's cells in
  // index order and each cell's orthogonal neighbours in `Orthogonal` order.
  // Without removals a HashSet<int> enumerates in insertion order, so the
  // frontier is modelled as a duplicate-free sequence in insertion order.
  // ---------------------------------------------------------------------------

  /** `if (!region[adj] && !forbidden[adj]) adjs.Add(adj)`. */
  function Insert(adjs: seq<int>, adj: int, region: seq<bool>, forbidden: seq<bool>): seq<int>
    requires IsMask(region) && IsMask(forbidden) && IsCell(adj)
  {
    if !region[adj] && !forbidden[adj] && adj !in adjs then adjs + [adj] else adjs
  }

  function InsertAll(adjs: seq<int>, cands: seq<int>, region: seq<bool>, forbidden: seq<bool>): seq<int>
    requires IsMask(region) && IsMask(forbidden) && AllCells(cands)
  {
    if cands == [] then adjs
    else Insert(InsertAll(adjs, cands[..|cands| - 1], region, forbidden), cands[|cands| - 1], region, forbidden)
  }

  /** The frontier after the scan has visited cells 0 .. i-1. */
  function FrontierUpTo(region: seq<bool>, forbidden: seq<bool>, i: nat): seq<int>
    requires IsMask(region) && IsMask(forbidden) && i <= N
  {
    if i == 0 then []
    else
      var prev := FrontierUpTo(region, forbidden, i - 1);
      if region[i - 1] then InsertAll(prev, Orthogonal(i - 1), region, forbidden) else prev
  }

  lemma {:induction false} InsertAllMembers(adjs: seq<int>, cands: seq<int>, region: seq<bool>, forbidden: seq<bool>)
    requires IsMask(region) && IsMask(forbidden) && AllCells(cands)
    ensures forall x :: x in InsertAll(adjs, cands, region, forbidden) <==>
      x in adjs || (x in cands && !region[x] && !forbidden[x])
  {
    if cands != [] {
      var init := cands[..|cands| - 1];
      InsertAllMembers(adjs, init, region, forbidden);
      assert cands == init + [cands[|cands| - 1]];
    }
  }

  /**
   * `fr` holds exactly the allowed cells outside the region that are
   * orthogonally adjacent to one of its cells below i.
   */
  ghost predicate FrontierOk(region: seq<bool>, forbidden: seq<bool>, i: nat, fr: seq<int>)
    requires IsMask(region) && IsMask(forbidden) && i <= N
  {
    && (forall x :: x in fr ==>
      IsCell(x) && !region[x] && !forbidden[x] && exists c :: 0 <= c < i && region[c] && Adjacent(c, x))
    && (forall x, c :: IsCell(x) && !region[x] && !forbidden[x] && 0 <= c < i && region[c] && Adjacent(c, x) ==>
      x in fr)
  }

  lemma {:induction false} FrontierUpToMembers(region: seq<bool>, forbidden: seq<bool>, i: nat)
    requires IsMask(region) && IsMask(forbidden) && i <= N
    ensures FrontierOk(region, forbidden, i, FrontierUpTo(region, forbidden, i))
  {
    if i > 0 {
      FrontierUpToMembers(region, forbidden, i - 1);
      FrontierUpToStep(region, forbidden, i);
    }
  }

  /** Scanning cell i - 1 extends the frontier of the cells before it to that of the cells up to it. */
  lemma FrontierUpToStep(region: seq<bool>, forbidden: seq<bool>, i: nat)
    requires IsMask(region) && IsMask(forbidden) && 0 < i <= N
    requires FrontierOk(region, forbidden, i - 1, FrontierUpTo(region, forbidden, i - 1))
    ensures FrontierOk(region, forbidden, i, FrontierUpTo(region, forbidden, i))
  {
    var prev := FrontierUpTo(region, forbidden, i - 1);
    if region[i - 1] {
      InsertAllMembers(prev, Orthogonal(i - 1), region, forbidden);
      FrontierStep(region, forbidden, i, prev);
      assert FrontierUpTo(region, forbidden, i) == InsertAll(prev, Orthogonal(i - 1), region, forbidden);
    } else {
      FrontierSkip(region, forbidden, i, prev);
      assert FrontierUpTo(region, forbidden, i) == prev;
    }
  }

  /** A cell outside the region adds nothing to the frontier. */
  lemma FrontierSkip(region: seq<bool>, forbidden: seq<bool>, i: nat, prev: seq<int>)
    requires IsMask(region) && IsMask(forbidden) && 0 < i <= N && !region[i - 1]
    requires FrontierOk(region, forbidden, i - 1, prev)
    ensures FrontierOk(region, forbidden, i, prev)
  {
    forall x | x in prev
      ensures exists c :: 0 <= c < i && region[c] && Adjacent(c, x)
    {
      var c :| 0 <= c < i - 1 && region[c] && Adjacent(c, x);
      assert 0 <= c < i;
    }
  }

  /** A cell of the region adds its allowed outside neighbours to the frontier. */
  lemma FrontierStep(region: seq<bool>, forbidden: seq<bool>, i: nat, prev: seq<int>)
    requires IsMask(region) && IsMask(forbidden) && 0 < i <= N && region[i - 1]
    requires FrontierOk(region, forbidden, i - 1, prev)
    requires forall x :: x in InsertAll(prev, Orthogonal(i - 1), region, forbidden) <==>
      x in prev || (x in Orthogonal(i - 1) && !region[x] && !forbidden[x])
    ensures FrontierOk(region, forbidden, i, InsertAll(prev, Orthogonal(i - 1), region, forbidden))
  {
    var next := InsertAll(prev, Orthogonal(i - 1), region, forbidden);
    forall x | x in next
      ensures IsCell(x) && !region[x] && !forbidden[x] && exists c :: 0 <= c < i && region[c] && Adjacent(c, x)
    {
      FrontierStepSound(region, forbidden, i, prev, next, x);
    }
    FrontierStepComplete(region, forbidden, i, prev, next);
  }

  lemma FrontierStepComplete(region: seq<bool>, forbidden: seq<bool>, i: nat, prev: seq<int>, next: seq<int>)
    requires IsMask(region) && IsMask(forbidden) && 0 < i <= N && region[i - 1]
    requires FrontierOk(region, forbidden, i - 1, prev)
    requires forall x :: x in next <==> x in prev || (x in Orthogonal(i - 1) && !region[x] && !forbidden[x])
    ensures forall x, c :: IsCell(x) && !region[x] && !forbidden[x] && 0 <= c < i && region[c] && Adjacent(c, x) ==>
      x in next
  {
    forall x, c | IsCell(x) && !region[x] && !forbidden[x] && 0 <= c < i && region[c] && Adjacent(c, x)
      ensures x in next
    {
      if c == i - 1 {
        assert x in Orthogonal(i - 1);
      }
    }
  }

  lemma FrontierStepSound(region: seq<bool>, forbidden: seq<bool>, i: nat, prev: seq<int>, next: seq<int>, x: int)
    requires IsMask(region) && IsMask(forbidden) && 0 < i <= N && region[i - 1]
    requires FrontierOk(region, forbidden, i - 1, prev)
    requires x in next && (x in next <==> x in prev || (x in Orthogonal(i - 1) && !region[x] && !forbidden[x]))
    ensures IsCell(x) && !region[x] && !forbidden[x] && exists c :: 0 <= c < i && region[c] && Adjacent(c, x)
  {
    if x in prev {
      var c :| 0 <= c < i - 1 && region[c] && Adjacent(c, x);
      assert 0 <= c < i && region[c] && Adjacent(c, x);
    } else {
      assert 0 <= i - 1 < i && region[i - 1] && Adjacent(i - 1, x);
    }
  }

  /**
   * The frontier of a region: the allowed cells outside it that are
   * orthogonally adjacent to one of its cells, each listed once.
   */
  function Frontier(region: seq<bool>, forbidden: seq<bool>): (r: seq<int>)
    requires IsMask(region) && IsMask(forbidden)
    ensures forall x :: x in r <==>
      IsCell(x) && !region[x] && !forbidden[x] && exists c :: IsCell(c) && region[c] && Adjacent(c, x)
    ensures AllCells(r)
  {
    FrontierUpToMembers(region, forbidden, N);
    FrontierUpTo(region, forbidden, N)
  }

  /** The loop that collects `adjs` in the growth step. */
  method ComputeFrontier(region: array<bool>, forbidden: seq<bool>) returns (adjs: seq<int>)
    requires region.Length == N && IsMask(forbidden)
    ensures adjs == Frontier(region[..], forbidden)
  {
    ghost var r := region[..];
    adjs := [];
    var i := 0;
    while i < N
      invariant 0 <= i <= N
      invariant adjs == FrontierUpTo(r, forbidden, i)
    {
      if region[i] {
        adjs := OfferNeighbours(region, forbidden, adjs, i);
      }
      i := i + 1;
    }
  }

  /** The inner loop of the frontier scan: offers each orthogonal neighbour of cell i in turn. */
  method OfferNeighbours(region: array<bool>, forbidden: seq<bool>, adjs0: seq<int>, i: int) returns (adjs: seq<int>)
    requires region.Length == N && IsMask(forbidden) && IsCell(i)
    ensures adjs == InsertAll(adjs0, Orthogonal(i), region[..], forbidden)
  {
    var nbs := Orthogonal(i);
    adjs := adjs0;
    var k := 0;
    while k < |nbs|
      invariant 0 <= k <= |nbs|
      invariant adjs == InsertAll(adjs0, nbs[..k], region[..], forbidden)
    {
      var adj := nbs[k];
      InsertAllSnoc(adjs0, nbs, k, region[..], forbidden);
      if !region[adj] && !forbidden[adj] && adj !in adjs {
        adjs := adjs + [adj];
      }
      k := k + 1;
    }
    assert nbs[..|nbs|] == nbs;
  }

  /** One more neighbour offered to the frontier. */
  lemma InsertAllSnoc(adjs: seq<int>, nbs: seq<int>, k: nat, region: seq<bool>, forbidden: seq<bool>)
    requires IsMask(region) && IsMask(forbidden) && AllCells(nbs) && k < |nbs|
    ensures InsertAll(adjs, nbs[..k + 1], region, forbidden) == Insert(InsertAll(adjs, nbs[..k], region, forbidden), nbs[k], region, forbidden)
  {
    assert nbs[..k + 1][..k] == nbs[..k];
  }

  // ---------------------------------------------------------------------------
  // Growth
  // ---------------------------------------------------------------------------

  /**
   * The `while (curSize < maxSize)` loop on a region whose cells, in the order
   * they were added, are `order`. Returns the final order and the unread draws.
   */
  function GrowLoop(maxSize: int, forbidden: seq<bool>, order: seq<int>, draws: seq<nat>): (r: Option<(seq<int>, seq<nat>)>)
    requires IsMask(forbidden) && AllCells(order)
    ensures r.Some? ==> |r.value.1| <= |draws| && AllCells(r.value.0) && |r.value.0| >= |order|
    decreases |draws|
  {
    if |order| >= maxSize then Some((order, draws))
    else
      var adjs := Frontier(Mark(order), forbidden);
      if |adjs| == 0 then Some((order, draws))
      else
        match Range(draws, |adjs|)
        case None => None
        case Some((k, rest)) => GrowLoop(maxSize, forbidden, order + [adjs[k]], rest)
  }

  /** `GenerateContiguousRegion`: a seed among the allowed cells, then the loop. */
  function Grow(maxSize: int, forbidden: seq<bool>, draws: seq<nat>): (r: Option<(seq<int>, seq<nat>)>)
    requires IsMask(forbidden)
    ensures r.Some? ==> |r.value.1| < |draws| && |r.value.0| > 0 && AllCells(r.value.0)
  {
    var allowed := Allowed(forbidden);
    match Range(draws, |allowed|)
    case None => None
    case Some((k, rest)) => GrowLoop(maxSize, forbidden, [allowed[k]], rest)
  }

  predicate Distinct(s: seq<int>)
  {
    forall p, q :: 0 <= p < q < |s| ==> s[p] != s[q]
  }

  /**
   * A non-empty list of distinct cells in which every cell after the first
   * touches an earlier one: the cells form a 4-connected region.
   */
  ghost predicate Attached(order: seq<int>)
  {
    && |order| >= 1
    && AllCells(order)
    && Distinct(order)
    && (forall k :: 1 <= k < |order| ==> exists p :: 0 <= p < k && Adjacent(order[p], order[k]))
  }

  /** A region grown so far: attached, and made of allowed cells only. */
  ghost predicate Grown(forbidden: seq<bool>, order: seq<int>)
    requires IsMask(forbidden)
  {
    Attached(order) && forall k :: 0 <= k < |order| ==> !forbidden[order[k]]
  }

  /** No allowed cell outside the region touches it. */
  ghost predicate Enclosed(forbidden: seq<bool>, order: seq<int>)
    requires IsMask(forbidden)
  {
    forall x, c :: IsCell(x) && !forbidden[x] && x !in order && c in order ==> !Adjacent(c, x)
  }

  function Max1(n: int): int { if n < 1 then 1 else n }

  lemma EmptyFrontierEnclosed(forbidden: seq<bool>, order: seq<int>)
    requires IsMask(forbidden) && AllCells(order)
    requires Frontier(Mark(order), forbidden) == []
    ensures Enclosed(forbidden, order)
  {
    var m := Mark(order);
    forall x, c | IsCell(x) && !forbidden[x] && x !in order && c in order
      ensures !Adjacent(c, x)
    {
      assert x !in Frontier(m, forbidden);
      assert !m[x];
      if IsCell(c) {
        assert m[c];
      }
    }
  }

  lemma GrownExtend(forbidden: seq<bool>, order: seq<int>, a: int)
    requires IsMask(forbidden) && Grown(forbidden, order)
    requires a in Frontier(Mark(order), forbidden)
    ensures Grown(forbidden, order + [a])
  {
    var c :| IsCell(c) && Mark(order)[c] && Adjacent(c, a);
    var p :| 0 <= p < |order| && order[p] == c;
    AttachedSnoc(order, a, p);
    var order' := order + [a];
    assert forall k :: 0 <= k < |order| ==> order'[k] == order[k];
  }

  /** Appending a new cell next to one of the region's cells keeps it attached. */
  lemma AttachedSnoc(order: seq<int>, a: int, p: int)
    requires Attached(order) && IsCell(a) && a !in order
    requires 0 <= p < |order| && Adjacent(order[p], a)
    ensures Attached(order + [a])
  {
    var order' := order + [a];
    assert forall k :: 0 <= k < |order| ==> order'[k] == order[k];
    forall k' | 1 <= k' < |order'|
      ensures exists q :: 0 <= q < k' && Adjacent(order'[q], order'[k'])
    {
      if k' < |order| {
        var q :| 0 <= q < k' && Adjacent(order[q], order[k']);
        assert Adjacent(order'[q], order'[k']);
      } else {
        assert Adjacent(order'[p], order'[k']);
      }
    }
  }

  lemma {:induction false} GrowLoopShape(maxSize: int, forbidden: seq<bool>, order: seq<int>, draws: seq<nat>)
    requires IsMask(forbidden) && Grown(forbidden, order) && |order| <= Max1(maxSize)
    requires GrowLoop(maxSize, forbidden, order, draws).Some?
    ensures var o := GrowLoop(maxSize, forbidden, order, draws).value.0;
      && Grown(forbidden, o)
      && order <= o
      && |o| <= Max1(maxSize)
      && (|o| < maxSize ==> Enclosed(forbidden, o))
    decreases |draws|
  {
    if |order| < maxSize {
      var adjs := Frontier(Mark(order), forbidden);
      if |adjs| == 0 {
        EmptyFrontierEnclosed(forbidden, order);
      } else {
        var a := adjs[draws[0]];
        GrownExtend(forbidden, order, a);
        GrowLoopShape(maxSize, forbidden, order + [a], draws[1..]);
      }
    }
  }

  /**
   * What growth promises: the region holds between 1 and max(1, maxSize)
   * distinct allowed cells, is 4-connected, and stops short of maxSize only
   * when no allowed neighbour is left.
   */
  lemma GrowShape(maxSize: int, forbidden: seq<bool>, draws: seq<nat>)
    requires IsMask(forbidden) && Grow(maxSize, forbidden, draws).Some?
    ensures var o := Grow(maxSize, forbidden, draws).value.0;
      && Grown(forbidden, o)
      && 1 <= |o| <= Max1(maxSize)
      && (|o| < maxSize ==> Enclosed(forbidden, o))
  {
    var allowed := Allowed(forbidden);
    var k, rest := draws[0], draws[1..];
    assert allowed[k] in allowed;
    GrowLoopShape(maxSize, forbidden, [allowed[k]], rest);
  }

  /** Growth needs one allowed cell for its seed, and the draws to be valid. */
  lemma GrowNeedsAllowedCell(maxSize: int, forbidden: seq<bool>, draws: seq<nat>)
    requires IsMask(forbidden) && Grow(maxSize, forbidden, draws).Some?
    ensures exists c :: IsCell(c) && !forbidden[c]
  {
    var allowed := Allowed(forbidden);
    assert allowed[0] in allowed;
  }

  /** One pass of the growth loop, as the method takes it. */
  lemma GrowStep(maxSize: int, forbidden: seq<bool>, order: seq<int>, d: seq<nat>)
    requires IsMask(forbidden) && AllCells(order) && |order| < maxSize
    requires GrowLoop(maxSize, forbidden, order, d).Some?
    ensures var adjs := Frontier(Mark(order), forbidden);
      if |adjs| == 0 then GrowLoop(maxSize, forbidden, order, d) == Some((order, d))
      else |d| > 0 && d[0] < |adjs| && GrowLoop(maxSize, forbidden, order, d) == GrowLoop(maxSize, forbidden, order + [adjs[d[0]]], d[1..])
  {
  }

  /** Setting one more cell in the mask of `order` gives the mask of `order + [a]`. */
  lemma MarkSnoc(order: seq<int>, a: int)
    requires IsCell(a)
    ensures Mark(order)[a := true] == Mark(order + [a])
  {
    assert forall c :: 0 <= c < N ==> (c in order + [a] <==> c in order || c == a);
  }

  method GenerateContiguousRegion(maxSize: int, forbidden: seq<bool>, draws: seq<nat>)
    returns (region: seq<bool>, rest: seq<nat>, ghost order: seq<int>)
    requires IsMask(forbidden) && Grow(maxSize, forbidden, draws).Some?
    ensures Grow(maxSize, forbidden, draws) == Some((order, rest))
    ensures region == Mark(order)
  {
    var r := new bool[N](_ => false);
    var allowed := Allowed(forbidden);
    var d := draws[1..];
    var seed := allowed[draws[0]];
    ghost var before := r[..];
    assert before == Mark([]);
    r[seed] := true;
    assert r[..] == before[seed := true];
    MarkSnoc([], seed);
    order := [seed];
    var curSize := 1;
    while curSize < maxSize
      invariant AllCells(order) && r.Length == N
      invariant r[..] == Mark(order) && curSize == |order|
      invariant GrowLoop(maxSize, forbidden, order, d) == Grow(maxSize, forbidden, draws)
      decreases |d|
    {
      var adjs := ComputeFrontier(r, forbidden);
      GrowStep(maxSize, forbidden, order, d);
      if |adjs| == 0 {
        return r[..], d, order;
      }
      var adj := adjs[d[0]];
      assert adj in adjs;
      d := d[1..];
      before := r[..];
      r[adj] := true;
      assert r[..] == before[adj := true];
      MarkSnoc(order, adj);
      order := order + [adj];
      curSize := curSize + 1;
    }
    region, rest := r[..], d;
  }
}

