/**
 * `RegionInfo`: a region ("tank") given as a 36-cell mask, together with its
 * cells in ascending order, its top and bottom rows and the number of rows it
 * spans.
 */
module RegionInfos {
  import opened Grid

  datatype RegionInfo = RegionInfo(region: seq<bool>, cells: seq<int>, topRow: int, bottomRow: int, numRows: int)

  predicate Ascending(s: seq<int>)
  {
    forall p, q :: 0 <= p < q < |s| ==> s[p] < s[q]
  }

  /** The invariant every RegionInfo built from a non-empty mask satisfies. */
  predicate WellFormed(info: RegionInfo)
  {
    && |info.region| == N
    && |info.cells| > 0
    && Ascending(info.cells)
    && (forall k :: 0 <= k < |info.cells| ==> IsCell(info.cells[k]))
    && (forall c :: 0 <= c < N ==> (c in info.cells <==> info.region[c]))
    && info.topRow == Row(info.cells[0])
    && info.bottomRow == Row(info.cells[|info.cells| - 1])
    && info.numRows == info.bottomRow - info.topRow + 1
  }

  /** `SelectIndexWhere(b => b)` over the first n entries: the set cells, ascending. */
  function TrueIndices(region: seq<bool>, n: nat): (r: seq<int>)
    requires n <= |region|
    ensures Ascending(r)
    ensures forall c :: c in r <==> 0 <= c < n && region[c]
    ensures forall k :: 0 <= k < |r| ==> 0 <= r[k] < n
  {
    if n == 0 then []
    else TrueIndices(region, n - 1) + (if region[n - 1] then [n - 1] else [])
  }

  lemma SomeTrueIndex(region: seq<bool>)
    requires |region| == N
    requires exists c :: 0 <= c < N && region[c]
    ensures |TrueIndices(region, N)| > 0
  {
    var c :| 0 <= c < N && region[c];
    assert c in TrueIndices(region, N);
  }

  /** The `RegionInfo(bool[] region)` constructor; the source indexes `Cells[0]`, so the mask must be non-empty. */
  function MakeRegionInfo(region: seq<bool>): (r: RegionInfo)
    requires |region| == N
    requires exists c :: 0 <= c < N && region[c]
    ensures WellFormed(r) && r.region == region
    ensures forall c :: c in r.cells ==> r.topRow <= Row(c) <= r.bottomRow
    ensures 1 <= r.numRows <= H
  {
    var cells := TrueIndices(region, N);
    SomeTrueIndex(region);
    RowsBetween(cells);
    RegionInfo(region, cells, Row(cells[0]), Row(cells[|cells| - 1]), Row(cells[|cells| - 1]) - Row(cells[0]) + 1)
  }

  /** Ascending cells lie between the rows of the first and the last. */
  lemma RowsBetween(cells: seq<int>)
    requires |cells| > 0 && Ascending(cells) && forall k :: 0 <= k < |cells| ==> IsCell(cells[k])
    ensures forall c :: c in cells ==> Row(cells[0]) <= Row(c) <= Row(cells[|cells| - 1])
    ensures 0 <= Row(cells[0]) <= Row(cells[|cells| - 1]) < H
  {
    forall c | c in cells
      ensures Row(cells[0]) <= Row(c) <= Row(cells[|cells| - 1])
    {
      var k :| 0 <= k < |cells| && cells[k] == c;
      assert cells[0] <= c <= cells[|cells| - 1];
      RowMonotone(cells[0], c);
      RowMonotone(c, cells[|cells| - 1]);
    }
  }

  lemma RowMonotone(a: int, b: int)
    requires 0 <= a <= b
    ensures Row(a) <= Row(b)
  {
  }
}
