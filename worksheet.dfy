/**
 * The first worksheet of a workbook as the processor sees it: stored cell
 * values addressed by 1-based (row, column), a list of merged rectangular
 * ranges, and the sheet's dimensions. Merged-cell resolution and the
 * flattening of the sheet into a grid of strings.
 */
module Worksheet {
  import opened Wrappers

  /** A cell address: (row, column), both 1-based. */
  type Coord = (int, int)

  /** Stored cell values; an address missing from the map stores no value, like one mapped to None. */
  type Cells = map<Coord, Option<string>>

  /** A merged range, bounds inclusive. */
  datatype CellRange = CellRange(minRow: int, minCol: int, maxRow: int, maxCol: int)

  /** The address (row, col) lies inside the range. */
  predicate InRange(rg: CellRange, row: int, col: int) {
    rg.minRow <= row <= rg.maxRow && rg.minCol <= col <= rg.maxCol
  }

  /** The value stored at (row, col) itself. */
  function Stored(cells: Cells, row: int, col: int): Option<string> {
    if (row, col) in cells then cells[(row, col)] else None
  }

  /**
   * The effective value of a cell: the value at the top-left corner of the
   * first range (in iteration order) containing the cell, or the cell's own
   * stored value when no range contains it.
   */
  function MergedValue(cells: Cells, ranges: seq<CellRange>, row: int, col: int): Option<string> {
    if |ranges| == 0 then Stored(cells, row, col)
    else if InRange(ranges[0], row, col) then Stored(cells, ranges[0].minRow, ranges[0].minCol)
    else MergedValue(cells, ranges[1..], row, col)
  }

  /** A cell that no range contains (every cell, when there are no ranges) resolves to its own stored value. */
  lemma {:induction false} MergedValueUnmerged(cells: Cells, ranges: seq<CellRange>, row: int, col: int)
    requires forall k :: 0 <= k < |ranges| ==> !InRange(ranges[k], row, col)
    ensures MergedValue(cells, ranges, row, col) == Stored(cells, row, col)
  {
    if |ranges| > 0 {
      assert !InRange(ranges[0], row, col);
      assert forall k :: 0 <= k < |ranges[1..]| ==> ranges[1..][k] == ranges[k + 1];
      MergedValueUnmerged(cells, ranges[1..], row, col);
    }
  }

  /** A cell whose first containing range is ranges[k] resolves to the value at that range's top-left corner. */
  lemma {:induction false} MergedValueFirstMatch(cells: Cells, ranges: seq<CellRange>, k: nat, row: int, col: int)
    requires k < |ranges| && InRange(ranges[k], row, col)
    requires forall j :: 0 <= j < k ==> !InRange(ranges[j], row, col)
    ensures MergedValue(cells, ranges, row, col) == Stored(cells, ranges[k].minRow, ranges[k].minCol)
  {
    if k > 0 {
      assert !InRange(ranges[0], row, col);
      assert forall j :: 0 <= j < |ranges[1..]| ==> ranges[1..][j] == ranges[j + 1];
      MergedValueFirstMatch(cells, ranges[1..], k - 1, row, col);
    }
  }

  /** No cell lies in two of the ranges (the layout a spreadsheet application produces). */
  ghost predicate Disjoint(ranges: seq<CellRange>) {
    forall i, j, row, col :: 0 <= i < j < |ranges| && InRange(ranges[i], row, col) ==> !InRange(ranges[j], row, col)
  }

  /**
   * With non-overlapping ranges, every cell of a merged range resolves to the
   * value stored at that range's top-left corner, whatever the iteration order.
   */
  lemma MergedRangeTopLeft(cells: Cells, ranges: seq<CellRange>, k: nat, row: int, col: int)
    requires Disjoint(ranges)
    requires k < |ranges| && InRange(ranges[k], row, col)
    ensures MergedValue(cells, ranges, row, col) == Stored(cells, ranges[k].minRow, ranges[k].minCol)
  {
    MergedValueFirstMatch(cells, ranges, k, row, col);
  }

  /** The string written for a cell: "" for an absent value, the value itself otherwise. */
  function CellText(v: Option<string>): string {
    match v
    case None => ""
    case Some(s) => s
  }

  /** The text written for address (row, col): its resolved value, "" when absent. */
  function ResolvedText(cells: Cells, ranges: seq<CellRange>, row: int, col: int): string {
    CellText(MergedValue(cells, ranges, row, col))
  }

  /** `line` is row `row` of the sheet flattened: `maxCol` cells, cell c holding the text of (row, c + 1). */
  ghost predicate IsFlatRow(line: seq<string>, cells: Cells, ranges: seq<CellRange>, row: int, maxCol: nat) {
    |line| == maxCol && forall c :: 0 <= c < maxCol ==> line[c] == ResolvedText(cells, ranges, row, c + 1)
  }

  /**
   * `grid` is the flattening of the sheet: `maxRow` rows of `maxCol` cells,
   * cell [r][c] holding the text of the resolved value of (r + 1, c + 1).
   */
  ghost predicate IsFlattening(grid: seq<seq<string>>, cells: Cells, ranges: seq<CellRange>, maxRow: nat, maxCol: nat) {
    |grid| == maxRow && forall r :: 0 <= r < maxRow ==> IsFlatRow(grid[r], cells, ranges, r + 1, maxCol)
  }

  /** The nested loop of the conversion: walk the sheet row by row, resolving each cell. */
  method Flatten(cells: Cells, ranges: seq<CellRange>, maxRow: nat, maxCol: nat) returns (grid: seq<seq<string>>)
    ensures IsFlattening(grid, cells, ranges, maxRow, maxCol)
  {
    grid := [];
    var row := 1;
    while row <= maxRow
      invariant 1 <= row <= maxRow + 1
      invariant |grid| == row - 1
      invariant forall r :: 0 <= r < |grid| ==> IsFlatRow(grid[r], cells, ranges, r + 1, maxCol)
    {
      var rowData := [];
      var col := 1;
      while col <= maxCol
        invariant 1 <= col <= maxCol + 1
        invariant |rowData| == col - 1
        invariant forall c :: 0 <= c < |rowData| ==> rowData[c] == ResolvedText(cells, ranges, row, c + 1)
      {
        var value := MergedValue(cells, ranges, row, col);
        var text := if value.None? then "" else value.value;
        rowData := rowData + [text];
        col := col + 1;
      }
      grid := grid + [rowData];
      row := row + 1;
    }
  }

  /** A sheet without merged ranges flattens to the direct cell-by-cell projection of its stored values. */
  lemma FlattenWithoutMerges(grid: seq<seq<string>>, cells: Cells, maxRow: nat, maxCol: nat)
    requires IsFlattening(grid, cells, [], maxRow, maxCol)
    ensures forall r, c :: 0 <= r < maxRow && 0 <= c < maxCol ==> grid[r][c] == CellText(Stored(cells, r + 1, c + 1))
  {
    forall r, c | 0 <= r < maxRow && 0 <= c < maxCol
      ensures grid[r][c] == CellText(Stored(cells, r + 1, c + 1))
    {
      assert IsFlatRow(grid[r], cells, [], r + 1, maxCol);
      MergedValueUnmerged(cells, [], r + 1, c + 1);
    }
  }
}
