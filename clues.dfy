/**
 * The minimal clue set: `allClues` lists the clues that are present as
 * items (row or column, index, value); a subset is checked by writing its
 * items into fresh clue arrays and asking whether the solver still finds at
 * most one solution; the surviving items are what the row and column texts
 * show.
 */
module RequiredClues {
  import opened Opt
  import opened RegionInfos
  import opened Composer
  import opened Solver
  import opened Puzzle

  datatype ClueItem = ClueItem(clue: int, isRow: bool, index: int)

  /** The present clues of one line array from position i on, as items, in index order. */
  function LineItems(cl: seq<Option<int>>, isRow: bool, i: nat): (items: seq<ClueItem>)
    requires i <= |cl|
    ensures forall it :: it in items <==> it.isRow == isRow && i <= it.index < |cl| && cl[it.index] == Some(it.clue)
    ensures forall p, q :: 0 <= p < q < |items| ==> items[p].index < items[q].index
    decreases |cl| - i
  {
    if i == |cl| then []
    else
      var rest := LineItems(cl, isRow, i + 1);
      if cl[i].Some? then [ClueItem(cl[i].value, isRow, i)] + rest else rest
  }

  /** A clue item belongs to the arrays: its line exists and shows exactly that value. */
  predicate ShownIn(hc: seq<Option<int>>, vc: seq<Option<int>>, it: ClueItem)
  {
    if it.isRow then 0 <= it.index < |hc| && hc[it.index] == Some(it.clue)
    else 0 <= it.index < |vc| && vc[it.index] == Some(it.clue)
  }

  /** No two items name the same row or the same column. */
  predicate KeysDistinct(items: seq<ClueItem>)
  {
    forall p, q :: 0 <= p < q < |items| ==> items[p].isRow != items[q].isRow || items[p].index != items[q].index
  }

  /** Row items followed by column items, each list in index order, never share a line. */
  lemma RowsThenColumns(rows: seq<ClueItem>, cols: seq<ClueItem>)
    requires forall k :: 0 <= k < |rows| ==> rows[k].isRow
    requires forall k :: 0 <= k < |cols| ==> !cols[k].isRow
    requires forall p, q :: 0 <= p < q < |rows| ==> rows[p].index < rows[q].index
    requires forall p, q :: 0 <= p < q < |cols| ==> cols[p].index < cols[q].index
    ensures KeysDistinct(rows + cols)
  {
    var items := rows + cols;
    forall p, q | 0 <= p < q < |items|
      ensures items[p].isRow != items[q].isRow || items[p].index != items[q].index
    {
      if q < |rows| {
        assert items[p] == rows[p] && items[q] == rows[q];
      } else if |rows| <= p {
        assert items[p] == cols[p - |rows|] && items[q] == cols[q - |rows|];
      } else {
        assert items[p] == rows[p] && items[q] == cols[q - |rows|];
      }
    }
  }

  /** `allClues` before the shuffle: the row clues, then the column clues, absent ones dropped. */
  function AllClues(hc: seq<Option<int>>, vc: seq<Option<int>>): (items: seq<ClueItem>)
    ensures forall it :: it in items <==> ShownIn(hc, vc, it)
    ensures KeysDistinct(items)
  {
    var rows, cols := LineItems(hc, true, 0), LineItems(vc, false, 0);
    assert forall k :: 0 <= k < |rows| ==> rows[k] in rows;
    assert forall k :: 0 <= k < |cols| ==> cols[k] in cols;
    RowsThenColumns(rows, cols);
    rows + cols
  }

  predicate ItemsFit(items: seq<ClueItem>)
  {
    forall k :: 0 <= k < |items| ==> 0 <= items[k].index < 6
  }

  predicate IndicesIn(ixs: seq<int>, n: int)
  {
    forall k :: 0 <= k < |ixs| ==> 0 <= ixs[k] < n
  }

  /** `(IsRow ? horizCl : vertCl)[Index] = Clue` for the first n indices of the set under test. */
  function Place(allClues: seq<ClueItem>, toTest: seq<int>, n: nat): (r: (seq<Option<int>>, seq<Option<int>>))
    requires ItemsFit(allClues) && IndicesIn(toTest, |allClues|) && n <= |toTest|
    ensures |r.0| == 6 && |r.1| == 6
  {
    if n == 0 then (AllNone(6), AllNone(6))
    else
      var (h, v) := Place(allClues, toTest, n - 1);
      var it := allClues[toTest[n - 1]];
      if it.isRow then (h[it.index := Some(it.clue)], v) else (h, v[it.index := Some(it.clue)])
  }

  /** Some item under test names the line. */
  predicate Names(allClues: seq<ClueItem>, toTest: seq<int>, n: nat, isRow: bool, i: int)
    requires IndicesIn(toTest, |allClues|) && n <= |toTest|
  {
    exists k :: 0 <= k < n && allClues[toTest[k]].isRow == isRow && allClues[toTest[k]].index == i
  }

  /**
   * The placed arrays hold exactly the items under test: a line is set iff some item
   * under test names it, and then to that item's value.
   */
  ghost predicate Placed(allClues: seq<ClueItem>, toTest: seq<int>, n: nat)
    requires ItemsFit(allClues) && IndicesIn(toTest, |allClues|) && n <= |toTest|
  {
    var (h, v) := Place(allClues, toTest, n);
    && (forall i :: 0 <= i < 6 ==> (h[i].Some? <==> Names(allClues, toTest, n, true, i)))
    && (forall i :: 0 <= i < 6 ==> (v[i].Some? <==> Names(allClues, toTest, n, false, i)))
    && (forall k :: 0 <= k < n ==> ShownIn(h, v, allClues[toTest[k]]))
  }

  lemma {:induction false} PlaceMembers(allClues: seq<ClueItem>, toTest: seq<int>, n: nat)
    requires ItemsFit(allClues) && IndicesIn(toTest, |allClues|) && n <= |toTest| && KeysDistinct(allClues)
    ensures Placed(allClues, toTest, n)
  {
    if n > 0 {
      PlaceMembers(allClues, toTest, n - 1);
      var (h', v') := Place(allClues, toTest, n);
      forall i | 0 <= i < 6
        ensures h'[i].Some? <==> Names(allClues, toTest, n, true, i)
        ensures v'[i].Some? <==> Names(allClues, toTest, n, false, i)
      {
        PlaceLineStep(allClues, toTest, n, i);
      }
      forall k | 0 <= k < n
        ensures ShownIn(h', v', allClues[toTest[k]])
      {
        PlaceShownStep(allClues, toTest, n, k);
      }
    }
  }

  /** Placing the n-th item sets line i iff that item or an earlier one names it. */
  lemma PlaceLineStep(allClues: seq<ClueItem>, toTest: seq<int>, n: nat, i: int)
    requires ItemsFit(allClues) && IndicesIn(toTest, |allClues|) && 0 < n <= |toTest| && 0 <= i < 6
    requires Placed(allClues, toTest, n - 1)
    ensures Place(allClues, toTest, n).0[i].Some? <==> Names(allClues, toTest, n, true, i)
    ensures Place(allClues, toTest, n).1[i].Some? <==> Names(allClues, toTest, n, false, i)
  {
    NamesSnoc(allClues, toTest, n, true, i);
    NamesSnoc(allClues, toTest, n, false, i);
  }

  /** Placing the n-th item keeps every earlier item shown, since no two items share a line. */
  lemma PlaceShownStep(allClues: seq<ClueItem>, toTest: seq<int>, n: nat, k: int)
    requires ItemsFit(allClues) && IndicesIn(toTest, |allClues|) && 0 < n <= |toTest| && 0 <= k < n
    requires KeysDistinct(allClues) && Placed(allClues, toTest, n - 1)
    ensures ShownIn(Place(allClues, toTest, n).0, Place(allClues, toTest, n).1, allClues[toTest[k]])
  {
    if k < n - 1 {
      var (h, v) := Place(allClues, toTest, n - 1);
      var o, it := allClues[toTest[k]], allClues[toTest[n - 1]];
      assert ShownIn(h, v, o);
      var p, q := toTest[k], toTest[n - 1];
      if p < q {
      } else if q < p {
      }
      assert o.isRow != it.isRow || o.index != it.index || o == it;
    }
  }

  /** The items under test up to n name a line iff those up to n - 1 do or the n-th does. */
  lemma NamesSnoc(allClues: seq<ClueItem>, toTest: seq<int>, n: nat, isRow: bool, i: int)
    requires IndicesIn(toTest, |allClues|) && 0 < n <= |toTest|
    ensures Names(allClues, toTest, n, isRow, i) <==>
      Names(allClues, toTest, n - 1, isRow, i) || (allClues[toTest[n - 1]].isRow == isRow && allClues[toTest[n - 1]].index == i)
  {
    if Names(allClues, toTest, n, isRow, i) {
      var k :| 0 <= k < n && allClues[toTest[k]].isRow == isRow && allClues[toTest[k]].index == i;
      if k < n - 1 {
        assert Names(allClues, toTest, n - 1, isRow, i);
      }
    }
  }

  /** Placing every item of `allClues`, in any order of indices, rebuilds the arrays they came from. */
  lemma PlaceAll(hc: seq<Option<int>>, vc: seq<Option<int>>, allClues: seq<ClueItem>, toTest: seq<int>)
    requires |hc| == 6 && |vc| == 6
    requires KeysDistinct(allClues) && (forall it :: it in allClues <==> ShownIn(hc, vc, it))
    requires IndicesIn(toTest, |allClues|) && forall k :: 0 <= k < |allClues| ==> k in toTest
    ensures ItemsFit(allClues)
    ensures Place(allClues, toTest, |toTest|) == (hc, vc)
  {
    forall k | 0 <= k < |allClues|
      ensures 0 <= allClues[k].index < 6
    {
      assert allClues[k] in allClues;
    }
    var r := Place(allClues, toTest, |toTest|);
    forall i | 0 <= i < 6
      ensures r.0[i] == hc[i] && r.1[i] == vc[i]
    {
      PlaceAllAt(hc, vc, allClues, toTest, i);
    }
    assert r.0 == hc && r.1 == vc;
  }

  lemma PlaceAllAt(hc: seq<Option<int>>, vc: seq<Option<int>>, allClues: seq<ClueItem>, toTest: seq<int>, i: int)
    requires |hc| == 6 && |vc| == 6 && 0 <= i < 6
    requires KeysDistinct(allClues) && (forall it :: it in allClues <==> ShownIn(hc, vc, it))
    requires IndicesIn(toTest, |allClues|) && forall k :: 0 <= k < |allClues| ==> k in toTest
    requires ItemsFit(allClues)
    ensures Place(allClues, toTest, |toTest|).0[i] == hc[i]
    ensures Place(allClues, toTest, |toTest|).1[i] == vc[i]
  {
    PlaceIsSubset(hc, vc, allClues, toTest);
    PlaceMembers(allClues, toTest, |toTest|);
    if hc[i].Some? {
      assert ShownIn(hc, vc, ClueItem(hc[i].value, true, i));
      PlaceAllWitness(allClues, toTest, ClueItem(hc[i].value, true, i));
    }
    if vc[i].Some? {
      assert ShownIn(hc, vc, ClueItem(vc[i].value, false, i));
      PlaceAllWitness(allClues, toTest, ClueItem(vc[i].value, false, i));
    }
  }

  /** An item of `allClues` whose index is in the set under test names its own line. */
  lemma PlaceAllWitness(allClues: seq<ClueItem>, toTest: seq<int>, it: ClueItem)
    requires IndicesIn(toTest, |allClues|) && forall k :: 0 <= k < |allClues| ==> k in toTest
    requires it in allClues
    ensures Names(allClues, toTest, |toTest|, it.isRow, it.index)
  {
    var p :| 0 <= p < |allClues| && allClues[p] == it;
    assert p in toTest;
    var k :| 0 <= k < |toTest| && toTest[k] == p;
  }

  /** Every clue present in (h', v') is present, with the same value, in (h, v). */
  predicate SubClues(h': seq<Option<int>>, v': seq<Option<int>>, h: seq<Option<int>>, v: seq<Option<int>>)
  {
    |h'| == |h| && |v'| == |v| &&
    (forall i :: 0 <= i < |h| && h'[i].Some? ==> h'[i] == h[i]) &&
    (forall i :: 0 <= i < |v| && v'[i].Some? ==> v'[i] == v[i])
  }

  /** Dropping clues keeps every solution a solution. */
  lemma FewerCluesMoreSolutions(regions: seq<RegionInfo>, t: seq<int>, h': seq<Option<int>>, v': seq<Option<int>>, h: seq<Option<int>>, v: seq<Option<int>>)
    requires ClueShape(h, v) && SubClues(h', v', h, v) && Consistent(regions, t, h, v)
    ensures ClueShape(h', v') && Consistent(regions, t, h', v')
  {
  }

  /** The placed clues of a subset of `allClues` are a subset of the clues `allClues` came from. */
  lemma PlaceIsSubset(hc: seq<Option<int>>, vc: seq<Option<int>>, allClues: seq<ClueItem>, toTest: seq<int>)
    requires |hc| == 6 && |vc| == 6
    requires KeysDistinct(allClues) && (forall it :: it in allClues <==> ShownIn(hc, vc, it))
    requires IndicesIn(toTest, |allClues|)
    ensures ItemsFit(allClues)
    ensures SubClues(Place(allClues, toTest, |toTest|).0, Place(allClues, toTest, |toTest|).1, hc, vc)
  {
    assert forall k :: 0 <= k < |allClues| ==> allClues[k] in allClues;
    PlaceMembers(allClues, toTest, |toTest|);
    var (h, v) := Place(allClues, toTest, |toTest|);
    forall i | 0 <= i < 6 && h[i].Some?
      ensures h[i] == hc[i]
    {
      var k :| 0 <= k < |toTest| && allClues[toTest[k]].isRow && allClues[toTest[k]].index == i;
      assert allClues[toTest[k]] in allClues;
    }
    forall i | 0 <= i < 6 && v[i].Some?
      ensures v[i] == vc[i]
    {
      var k :| 0 <= k < |toTest| && !allClues[toTest[k]].isRow && allClues[toTest[k]].index == i;
      assert allClues[toTest[k]] in allClues;
    }
  }

  /** The loop of the `test` callback that writes the items under test into fresh clue arrays. */
  method PlaceClues(allClues: seq<ClueItem>, setToTest: seq<int>) returns (hc: seq<Option<int>>, vc: seq<Option<int>>)
    requires ItemsFit(allClues) && IndicesIn(setToTest, |allClues|)
    ensures hc == Place(allClues, setToTest, |setToTest|).0
    ensures vc == Place(allClues, setToTest, |setToTest|).1
  {
    var horizCl := new Option<int>[6](_ => None);
    var vertCl := new Option<int>[6](_ => None);
    assert horizCl[..] == AllNone(6) && vertCl[..] == AllNone(6);
    for i := 0 to |setToTest|
      invariant horizCl[..] == Place(allClues, setToTest, i).0
      invariant vertCl[..] == Place(allClues, setToTest, i).1
    {
      var item := allClues[setToTest[i]];
      if item.isRow {
        horizCl[item.index] := Some(item.clue);
      } else {
        vertCl[item.index] := Some(item.clue);
      }
    }
    hc, vc := horizCl[..], vertCl[..];
  }

  /** The `test` callback: does the subset still leave only one solution? */
  method TestClueSubset(regions: seq<RegionInfo>, allClues: seq<ClueItem>, setToTest: seq<int>) returns (unique: bool)
    requires AllWellFormed(regions) && |regions| > 0
    requires ItemsFit(allClues) && IndicesIn(setToTest, |allClues|)
    ensures var (h, v) := Place(allClues, setToTest, |setToTest|);
      unique <==> forall t, u :: Consistent(regions, t, h, v) && Consistent(regions, u, h, v) ==> t == u
  {
    var hc, vc := PlaceClues(allClues, setToTest);
    var sofar := new Option<int>[|regions|](_ => None);
    assert sofar[..] == AllNone(|regions|);
    var sols := SolveRecurse(regions, sofar, hc, vc);
    unique := |sols| <= 1;
    UniqueIffAtMostOne(regions, hc, vc);
  }

  /**
   * A clue subset that passes the test, drawn from a generated puzzle's
   * clues in any order, has the generated levels as its one solution.
   */
  lemma PassingSubsetPinsSolution(g: Generated, allClues: seq<ClueItem>, toTest: seq<int>)
    requires WellGenerated(g)
    requires KeysDistinct(allClues) && (forall it :: it in allClues <==> ShownIn(g.horizClues, g.vertClues, it))
    requires IndicesIn(toTest, |allClues|)
    requires ItemsFit(allClues)
    requires var (h, v) := Place(allClues, toTest, |toTest|);
      forall t, u :: Consistent(g.regions, t, h, v) && Consistent(g.regions, u, h, v) ==> t == u
    ensures var (h, v) := Place(allClues, toTest, |toTest|);
      forall t :: Consistent(g.regions, t, h, v) <==> t == g.levels
  {
    var (h, v) := Place(allClues, toTest, |toTest|);
    OwnCluesConsistent(g.regions, g.levels);
    PlaceIsSubset(g.horizClues, g.vertClues, allClues, toTest);
    FewerCluesMoreSolutions(g.regions, g.levels, h, v, g.horizClues, g.vertClues);
  }

  /**
   * The set ReduceRequiredSet starts from, every index of the shuffled
   * `allClues`, passes the test on an unambiguous generated puzzle.
   */
  lemma FullSetPasses(g: Generated, allClues: seq<ClueItem>, toTest: seq<int>)
    requires WellGenerated(g) && !Ambiguous(g)
    requires KeysDistinct(allClues) && (forall it :: it in allClues <==> ShownIn(g.horizClues, g.vertClues, it))
    requires IndicesIn(toTest, |allClues|) && forall k :: 0 <= k < |allClues| ==> k in toTest
    ensures ItemsFit(allClues)
    ensures var (h, v) := Place(allClues, toTest, |toTest|);
      forall t, u :: Consistent(g.regions, t, h, v) && Consistent(g.regions, u, h, v) ==> t == u
  {
    UnambiguousIsUnique(g);
    PlaceAll(g.horizClues, g.vertClues, allClues, toTest);
  }

  /** `requiredClues`: the items ReduceRequiredSet kept, in the order it returned their indices. */
  function Pick(allClues: seq<ClueItem>, ixs: seq<int>): (r: seq<ClueItem>)
    requires IndicesIn(ixs, |allClues|)
    ensures |r| == |ixs| && forall k :: 0 <= k < |ixs| ==> r[k] == allClues[ixs[k]]
  {
    seq(|ixs|, k requires 0 <= k < |ixs| => allClues[ixs[k]])
  }

  /** `requiredClues.FirstOrDefault(cl => cl.IsRow == isRow && cl.Index == index)`, by its clue value. */
  function ShownClue(required: seq<ClueItem>, isRow: bool, index: int): (r: Option<int>)
  {
    if required == [] then None
    else if required[0].isRow == isRow && required[0].index == index then Some(required[0].clue)
    else ShownClue(required[1..], isRow, index)
  }

  lemma {:induction false} ShownClueFacts(required: seq<ClueItem>, isRow: bool, index: int)
    ensures ShownClue(required, isRow, index).None? <==>
      forall k :: 0 <= k < |required| ==> required[k].isRow != isRow || required[k].index != index
    ensures ShownClue(required, isRow, index).Some? ==>
      exists k :: 0 <= k < |required| && required[k] == ClueItem(ShownClue(required, isRow, index).value, isRow, index)
  {
    if required != [] {
      ShownClueFacts(required[1..], isRow, index);
      assert forall k :: 1 <= k < |required| ==> required[k] == required[1..][k - 1];
      if ShownClue(required, isRow, index).Some? && !(required[0].isRow == isRow && required[0].index == index) {
        var k :| 0 <= k < |required[1..]| && required[1..][k] == ClueItem(ShownClue(required, isRow, index).value, isRow, index);
        assert required[k + 1] == required[1..][k];
      }
    }
  }

  /** The row and column texts show exactly the clue arrays the last passing test placed. */
  lemma ShownIsPlaced(allClues: seq<ClueItem>, required: seq<int>, i: int)
    requires ItemsFit(allClues) && IndicesIn(required, |allClues|) && KeysDistinct(allClues) && 0 <= i < 6
    ensures ShownClue(Pick(allClues, required), true, i) == Place(allClues, required, |required|).0[i]
    ensures ShownClue(Pick(allClues, required), false, i) == Place(allClues, required, |required|).1[i]
  {
    var picked := Pick(allClues, required);
    PlaceMembers(allClues, required, |required|);
    ShownClueFacts(picked, true, i);
    ShownClueFacts(picked, false, i);
  }
}
